/** Python list idioms the application relies on: flattening a list of lists
    and the "keeps order, only drops" relation between two lists. */
module Lists {

  /** `[item for sublist in xss for item in sublist]`. */
  function Flatten<T>(xss: seq<seq<T>>): seq<T>
  {
    if xss == [] then [] else xss[0] + Flatten(xss[1..])
  }

  /** Total number of elements over all sublists. */
  function SumOfLengths<T>(xss: seq<seq<T>>): nat
  {
    if xss == [] then 0 else |xss[0]| + SumOfLengths(xss[1..])
  }

  /** Flattening a concatenation flattens each part and concatenates. */
  lemma {:induction false} FlattenAppend<T>(a: seq<seq<T>>, b: seq<seq<T>>)
    ensures Flatten(a + b) == Flatten(a) + Flatten(b)
  {
    if a != [] {
      calc {
        Flatten(a + b);
        { assert (a + b)[0] == a[0]; assert (a + b)[1..] == a[1..] + b; }
        a[0] + Flatten(a[1..] + b);
        { FlattenAppend(a[1..], b); }
        a[0] + (Flatten(a[1..]) + Flatten(b));
      }
    } else {
      assert a + b == b;
    }
  }

  /** Extending the outer list by one sublist extends the flattening by that sublist. */
  lemma FlattenSnoc<T>(a: seq<seq<T>>, x: seq<T>)
    ensures Flatten(a + [x]) == Flatten(a) + x
  {
    FlattenAppend(a, [x]);
    assert Flatten([x]) == x + Flatten([x][1..]);
    assert [x][1..] == [];
  }

  /** The flattening holds exactly as many elements as the sublists together. */
  lemma {:induction false} FlattenLength<T>(xss: seq<seq<T>>)
    ensures |Flatten(xss)| == SumOfLengths(xss)
  {
    if xss != [] {
      FlattenLength(xss[1..]);
    }
  }

  /** Flattening keeps order: element `j` of sublist `i` sits right after all
      the elements of the sublists before `i`. */
  lemma {:induction false} FlattenIndex<T>(xss: seq<seq<T>>, i: nat, j: nat)
    requires i < |xss| && j < |xss[i]|
    ensures SumOfLengths(xss[..i]) + j < |Flatten(xss)|
    ensures Flatten(xss)[SumOfLengths(xss[..i]) + j] == xss[i][j]
  {
    FlattenLength(xss[1..]);
    if i > 0 {
      assert xss[..i][0] == xss[0];
      assert xss[..i][1..] == xss[1..][..i - 1];
      FlattenIndex(xss[1..], i - 1, j);
    } else {
      assert xss[..0] == [];
    }
  }

  /** `t` is obtained from `s` by deleting elements; what stays keeps its order. */
  predicate IsSubsequence<T(==)>(t: seq<T>, s: seq<T>)
    decreases |s|
  {
    t == [] || (s != [] && ((t[0] == s[0] && IsSubsequence(t[1..], s[1..])) || IsSubsequence(t, s[1..])))
  }

  /** Every sequence is a subsequence of itself. */
  lemma {:induction false} SubsequenceRefl<T>(s: seq<T>)
    ensures IsSubsequence(s, s)
  {
    if s != [] {
      SubsequenceRefl(s[1..]);
    }
  }

  /** Deleting from a subsequence keeps it a subsequence. */
  lemma {:induction false} SubsequenceTrans<T>(a: seq<T>, b: seq<T>, c: seq<T>)
    requires IsSubsequence(a, b) && IsSubsequence(b, c)
    ensures IsSubsequence(a, c)
    decreases |c|
  {
    if a != [] {
      if IsSubsequence(b, c[1..]) {
        SubsequenceTrans(a, b, c[1..]);
      } else if a[0] == b[0] && IsSubsequence(a[1..], b[1..]) {
        SubsequenceTrans(a[1..], b[1..], c[1..]);
      } else {
        SubsequenceTrans(a, b[1..], c[1..]);
      }
    }
  }

  /** A subsequence of a suffix is a subsequence of the whole. */
  lemma {:induction false} SubsequenceOfSuffix<T>(t: seq<T>, s: seq<T>, k: nat)
    requires k <= |s| && IsSubsequence(t, s[k..])
    ensures IsSubsequence(t, s)
  {
    if k > 0 {
      assert s[1..][k - 1..] == s[k..];
      SubsequenceOfSuffix(t, s[1..], k - 1);
    }
  }

  /** A contiguous slice is a subsequence. */
  lemma {:induction false} SliceIsSubsequence<T>(s: seq<T>, i: nat, j: nat)
    requires i <= j <= |s|
    ensures IsSubsequence(s[i..j], s)
  {
    if i > 0 {
      assert s[1..][i - 1..j - 1] == s[i..j];
      SliceIsSubsequence(s[1..], i - 1, j - 1);
    } else if j > 0 {
      assert s[..j][1..] == s[1..][..j - 1];
      SliceIsSubsequence(s[1..], 0, j - 1);
    }
  }

  /** A subsequence is never longer than the sequence it comes from. */
  lemma {:induction false} SubsequenceLength<T>(t: seq<T>, s: seq<T>)
    requires IsSubsequence(t, s)
    ensures |t| <= |s|
    decreases |s|
  {
    if t != [] {
      if t[0] == s[0] && IsSubsequence(t[1..], s[1..]) {
        SubsequenceLength(t[1..], s[1..]);
      } else {
        SubsequenceLength(t, s[1..]);
      }
    }
  }
}
