/** Turning the language model's free-text answer into itinerary entries
    (`parse_model_response`): strip the markdown code fences, trim, delete
    every newline and space, then decode the rest as JSON. */
module ResponseParser {
  import opened Wrappers
  import opened Lists
  import opened PyStr

  /** One element of the JSON array the prompt asks for:
      `{"activity": ..., "hotels": [...]}`. */
  datatype ItineraryEntry = ItineraryEntry(activity: string, hotels: seq<string>)

  /** A JSON decoder: the entries a text denotes, or `None` where decoding
      raises a decode error. */
  type Decoder = string -> Option<seq<ItineraryEntry>>

  const Fence: string := "```"
  const LowerFence: string := "```json"
  const UpperFence: string := "```JSON"

  /** The three fence deletions, in the order the source runs them. */
  function Unfence(s: string): string
  {
    Replace(Replace(Replace(s, LowerFence, ""), Fence, ""), UpperFence, "")
  }

  /** The second cleanup line: every newline, then every space, deleted. */
  function Compact(s: string): string
  {
    Replace(Replace(s, "\n", ""), " ", "")
  }

  /** The whole cleanup chain. Its result holds no space and no newline, and it
      is the input with characters deleted, in their original order. */
  function Clean(response: string): (r: string)
    ensures ' ' !in r && '\n' !in r
    ensures IsSubsequence(r, response) && |r| <= |response|
  {
    var unfenced := Unfence(response);
    var stripped := Strip(unfenced);
    var noNewline := Replace(stripped, "\n", "");
    var r := Replace(noNewline, " ", "");
    assert "\n" == ['\n'] && " " == [' '];
    DeleteCharMembership(stripped, '\n', '\n');
    DeleteCharMembership(stripped, '\n', ' ');
    DeleteCharMembership(noNewline, ' ', ' ');
    DeleteCharMembership(noNewline, ' ', '\n');
    assert r == Compact(stripped);
    CleanIsSubsequence(response);
    SubsequenceLength(r, response);
    r
  }

  /** Each stage of the cleanup only deletes characters. */
  lemma CleanIsSubsequence(response: string)
    ensures IsSubsequence(Compact(Strip(Unfence(response))), response)
  {
    var unfenced := Unfence(response);
    var stripped := Strip(unfenced);
    UnfenceIsSubsequence(response);
    StripIsSubsequence(unfenced);
    CompactIsSubsequence(stripped);
    SubsequenceTrans(stripped, unfenced, response);
    SubsequenceTrans(Compact(stripped), stripped, response);
  }

  lemma UnfenceIsSubsequence(s: string)
    ensures IsSubsequence(Unfence(s), s)
  {
    var a := Replace(s, LowerFence, "");
    var b := Replace(a, Fence, "");
    DeleteIsSubsequence(s, LowerFence);
    DeleteIsSubsequence(a, Fence);
    DeleteIsSubsequence(b, UpperFence);
    SubsequenceTrans(b, a, s);
    SubsequenceTrans(Unfence(s), b, s);
  }

  lemma CompactIsSubsequence(s: string)
    ensures IsSubsequence(Compact(s), s)
  {
    var noNewline := Replace(s, "\n", "");
    DeleteIsSubsequence(s, "\n");
    DeleteIsSubsequence(noNewline, " ");
    SubsequenceTrans(Compact(s), noNewline, s);
  }

  /** `parse_model_response`: the decoded entries of the cleaned text, or the
      empty list when decoding fails. */
  function ParseModelResponse(response: string, decode: Decoder): (entries: seq<ItineraryEntry>)
    ensures decode(Clean(response)).None? ==> entries == []
    ensures decode(Clean(response)).Some? ==> entries == decode(Clean(response)).value
  {
    decode(Clean(response)).GetOr([])
  }

  /** Number of leading backticks of `s`. */
  function LeadingBackticks(s: string): (k: nat)
    ensures k <= |s|
    ensures forall i :: 0 <= i < k ==> s[i] == '`'
    ensures k < |s| ==> s[k] != '`'
  {
    if s != [] && s[0] == '`' then 1 + LeadingBackticks(s[1..]) else 0
  }

  lemma {:induction false} LeadingBackticksDrop(s: string, k: nat)
    requires k <= LeadingBackticks(s)
    ensures LeadingBackticks(s[k..]) == LeadingBackticks(s) - k
  {
    if k > 0 {
      assert s[1..][k - 1..] == s[k..];
      LeadingBackticksDrop(s[1..], k - 1);
    }
  }

  /** The deletion keeps a first character that does not start a fence. */
  lemma DeleteFenceKeepsHead(s: string)
    requires |s| >= 3 && s[..3] != Fence
    ensures Replace(s, Fence, "") == [s[0]] + Replace(s[1..], Fence, "")
  {
  }

  /** The deletion drops a fence at the front. */
  lemma DeleteFenceDropsHead(s: string)
    requires |s| >= 3 && s[..3] == Fence
    ensures Replace(s, Fence, "") == Replace(s[3..], Fence, "")
  {
  }

  /** One more character in front of a text: its leading backticks grow by one
      when that character is a backtick, and are none otherwise. */
  lemma LeadingBackticksCons(c: char, rest: string)
    ensures LeadingBackticks([c] + rest) == if c == '`' then 1 + LeadingBackticks(rest) else 0
  {
    assert ([c] + rest)[1..] == rest;
  }

  /** A fence at the front means at least three leading backticks. */
  lemma FenceAtZero(r: string)
    ensures OccursAt(r, Fence, 0) ==> LeadingBackticks(r) >= 3
  {
    if OccursAt(r, Fence, 0) {
      assert r[0] == '`' && r[1] == '`' && r[2] == '`';
    }
  }

  /** One character in front of a fence-free text whose leading backticks
      stay under three keeps it fence-free. */
  lemma ConsKeepsNoFence(c: char, rest: string)
    requires !Contains(rest, Fence) && LeadingBackticks([c] + rest) < 3
    ensures !Contains([c] + rest, Fence)
  {
    FenceAtZero([c] + rest);
    OccursAtShift(c, rest, Fence);
  }

  /** A text with fewer than three leading backticks does not start with a fence,
      and one that starts with a fence has at least three. */
  lemma FenceAtFront(s: string)
    requires |s| >= 3
    ensures s[..3] == Fence <==> LeadingBackticks(s) >= 3
  {
    var s1, s2 := s[1..], s[2..];
    assert s1[1..] == s2;
    LeadingBackticksHead(s);
    LeadingBackticksHead(s1);
    LeadingBackticksHead(s2);
    assert s[..3] == Fence <==> s[0] == '`' && s1[0] == '`' && s2[0] == '`';
  }

  /** Deleting every "```" leaves, at the front, the leading backticks modulo
      three: a run of backticks loses whole fences only. */
  lemma {:induction false} DeleteFenceLeading(s: string)
    ensures LeadingBackticks(Replace(s, Fence, "")) == LeadingBackticks(s) % 3
    decreases |s|
  {
    if |s| < 3 {
      assert Replace(s, Fence, "") == s;
    } else {
      FenceAtFront(s);
      if s[..3] == Fence {
        DeleteFenceDropsHead(s);
        DeleteFenceLeading(s[3..]);
        LeadingAfterDrop(s, Replace(s, Fence, ""));
      } else {
        DeleteFenceKeepsHead(s);
        DeleteFenceLeading(s[1..]);
        LeadingAfterKeep(s, Replace(s, Fence, ""), Replace(s[1..], Fence, ""));
      }
    }
  }

  /** Arithmetic of the step that drops a fence at the front. */
  lemma LeadingAfterDrop(s: string, r: string)
    requires |s| >= 3 && LeadingBackticks(s) >= 3
    requires LeadingBackticks(r) == LeadingBackticks(s[3..]) % 3
    ensures LeadingBackticks(r) == LeadingBackticks(s) % 3
  {
    LeadingBackticksDrop(s, 3);
    ModuloThreeShift(LeadingBackticks(s));
  }

  lemma ModuloThreeShift(x: int)
    requires x >= 3
    ensures (x - 3) % 3 == x % 3
  {
  }

  /** The leading backticks of a non-empty text, one step of the definition. */
  lemma LeadingBackticksHead(s: string)
    requires s != []
    ensures LeadingBackticks(s) == if s[0] == '`' then 1 + LeadingBackticks(s[1..]) else 0
  {
  }

  /** Arithmetic of the step that keeps the first character. */
  lemma LeadingAfterKeep(s: string, r: string, r1: string)
    requires |s| >= 3 && LeadingBackticks(s) < 3
    requires r == [s[0]] + r1
    requires LeadingBackticks(r1) == LeadingBackticks(s[1..]) % 3
    ensures LeadingBackticks(r) == LeadingBackticks(s) % 3
  {
    LeadingBackticksCons(s[0], r1);
    LeadingBackticksHead(s);
    KeepArithmetic(s[0] == '`', LeadingBackticks(s), LeadingBackticks(s[1..]), LeadingBackticks(r));
  }

  lemma KeepArithmetic(tick: bool, k: nat, k1: nat, kr: nat)
    requires k < 3 && k == (if tick then 1 + k1 else 0)
    requires kr == (if tick then 1 + k1 % 3 else 0)
    ensures kr == k % 3
  {
  }

  /** Deleting every "```" leaves no "```" anywhere: a run of backticks is cut
      down to fewer than three, and deletion never joins two runs. */
  lemma {:induction false} DeleteFenceLeavesNoFence(s: string)
    ensures !Contains(Replace(s, Fence, ""), Fence)
    decreases |s|
  {
    var r := Replace(s, Fence, "");
    if |s| < 3 {
      assert r == s;
    } else if s[..3] == Fence {
      DeleteFenceDropsHead(s);
      DeleteFenceLeavesNoFence(s[3..]);
    } else {
      DeleteFenceKeepsHead(s);
      FenceAtFront(s);
      DeleteFenceLeavesNoFence(s[1..]);
      DeleteFenceLeading(s);
      ConsKeepsNoFence(s[0], Replace(s[1..], Fence, ""));
    }
  }

  /** An occurrence of a pattern contains an occurrence of its prefix. */
  lemma PrefixOccurs(s: string, pat: string, n: nat)
    requires n <= |pat|
    ensures Contains(s, pat) ==> Contains(s, pat[..n])
  {
    if Contains(s, pat) {
      var i :| 0 <= i <= |s| && OccursAt(s, pat, i);
      assert s[i..i + n] == pat[..n];
      assert OccursAt(s, pat[..n], i);
    }
  }

  /** After the "```json" and "```" deletions no "```" is left, so the third
      deletion, of "```JSON", never changes anything. */
  lemma UpperFenceDeletionIsNoOp(s: string)
    ensures !Contains(Replace(Replace(s, LowerFence, ""), Fence, ""), Fence)
    ensures Unfence(s) == Replace(Replace(s, LowerFence, ""), Fence, "")
    ensures !Contains(Unfence(s), Fence)
  {
    var b := Replace(Replace(s, LowerFence, ""), Fence, "");
    DeleteFenceLeavesNoFence(Replace(s, LowerFence, ""));
    assert UpperFence[..3] == Fence;
    PrefixOccurs(b, UpperFence, 3);
    ReplaceAbsent(b, UpperFence, "");
  }

  /** A text without backticks passes the fence deletions unchanged. */
  lemma UnfenceWithoutBackticks(s: string)
    requires '`' !in s
    ensures Unfence(s) == s
  {
    assert s + [] == s;
    ReplaceSkipsPrefix(s, [], LowerFence, "");
    ReplaceSkipsPrefix(s, [], Fence, "");
    ReplaceSkipsPrefix(s, [], UpperFence, "");
  }

  /** A body wrapped in a lower-case fence cleans to exactly what the bare
      body cleans to. */
  lemma LowerFenceIsTransparent(body: string)
    requires '`' !in body
    ensures Clean(LowerFence + body + Fence) == Clean(body)
  {
    var s := LowerFence + body + Fence;
    assert s[..|LowerFence|] == LowerFence;
    assert s[|LowerFence|..] == body + Fence;
    assert Replace(s, LowerFence, "") == Replace(body + Fence, LowerFence, "");
    ReplaceSkipsPrefix(body, Fence, LowerFence, "");
    assert Replace(Fence, LowerFence, "") == Fence;
    ReplaceSkipsPrefix(body, Fence, Fence, "");
    assert Replace(Fence, Fence, "") == "" by {
      assert Fence[..3] == Fence && Fence[3..] == [];
    }
    assert body + "" == body;
    ReplaceSkipsPrefix(body, [], UpperFence, "");
    assert body + [] == body;
    UnfenceWithoutBackticks(body);
  }

  /** The "```json" deletion finds nothing in an upper-case-fenced body. */
  lemma LowerDeletionSkipsUpperFenced(body: string)
    requires '`' !in body
    ensures Replace(UpperFence + body + Fence, LowerFence, "") == UpperFence + body + Fence
  {
    var s := UpperFence + body + Fence;
    var tail := "JSON" + body;
    assert s[..3] == Fence && s[3..] == tail + Fence;
    assert s[3] == 'J' && s[1..][2] == 'J' && s[2..][1] == 'J';
    MismatchAt(s, LowerFence, 3);
    MismatchAt(s[1..], LowerFence, 2);
    MismatchAt(s[2..], LowerFence, 1);
    ReplaceKeepsThree(s, LowerFence, "");
    LowerDeletionSkipsTail(tail);
    assert s[..3] + (tail + Fence) == s;
  }

  lemma LowerDeletionSkipsTail(tail: string)
    requires '`' !in tail
    ensures Replace(tail + Fence, LowerFence, "") == tail + Fence
  {
    ReplaceSkipsPrefix(tail, Fence, LowerFence, "");
    assert Replace(Fence, LowerFence, "") == Fence;
  }

  /** The "```" deletion removes an upper-case fence's backticks and the closing fence. */
  lemma FenceDeletionOnUpperFenced(body: string)
    requires '`' !in body
    ensures Replace(UpperFence + body + Fence, Fence, "") == "JSON" + body
  {
    var s := UpperFence + body + Fence;
    var tail := "JSON" + body;
    assert '`' !in tail;
    assert s[..3] == Fence && s[3..] == tail + Fence;
    DeleteFenceDropsHead(s);
    ReplaceSkipsPrefix(tail, Fence, Fence, "");
    assert Replace(Fence, Fence, "") == "" by {
      assert Fence[..3] == Fence && Fence[3..] == [];
    }
    assert tail + "" == tail;
  }

  /** The fence deletions turn an upper-case-fenced body into "JSON" followed
      by the body: the "```" deletion has already consumed the fence's
      backticks when the "```JSON" deletion runs. */
  lemma UnfenceUpperFenced(body: string)
    requires '`' !in body
    ensures Unfence(UpperFence + body + Fence) == "JSON" + body
  {
    var tail := "JSON" + body;
    assert '`' !in tail;
    LowerDeletionSkipsUpperFenced(body);
    FenceDeletionOnUpperFenced(body);
    ReplaceSkipsPrefix(tail, [], UpperFence, "");
    assert tail + [] == tail;
  }

  /** The newline and space deletions pass over a prefix holding neither. */
  lemma CompactKeepsPrefix(p: string, x: string)
    requires '\n' !in p && ' ' !in p
    ensures Compact(p + x) == p + Compact(x)
  {
    ReplaceSkipsPrefix(p, x, "\n", "");
    ReplaceSkipsPrefix(p, Replace(x, "\n", ""), " ", "");
  }

  /** A body wrapped in an upper-case fence keeps a stray "JSON" in front
      after cleanup. */
  lemma UpperFenceLeavesJsonPrefix(body: string)
    requires '`' !in body
    ensures |Clean(UpperFence + body + Fence)| >= 4
    ensures Clean(UpperFence + body + Fence)[..4] == "JSON"
  {
    var s := UpperFence + body + Fence;
    UnfenceUpperFenced(body);
    assert Clean(s) == Compact(Strip("JSON" + body));
    JsonPrefixSurvivesCleanup(body);
  }

  /** Trimming and the newline and space deletions keep a leading "JSON". */
  lemma JsonPrefixSurvivesCleanup(body: string)
    ensures |Compact(Strip("JSON" + body))| >= 4
    ensures Compact(Strip("JSON" + body))[..4] == "JSON"
  {
    var stripped := Strip("JSON" + body);
    StripKeepsPrefix("JSON", body);
    assert stripped == "JSON" + stripped[4..];
    CompactKeepsPrefix("JSON", stripped[4..]);
  }

  /** A JSON text cannot begin with the letter J, so a decoder that rejects
      such texts makes an upper-case-fenced answer parse to the empty list. */
  lemma UpperFenceParsesToEmpty(body: string, decode: Decoder)
    requires '`' !in body
    requires forall t: string :: |t| >= 1 && t[0] == 'J' ==> decode(t).None?
    ensures ParseModelResponse(UpperFence + body + Fence, decode) == []
  {
    UpperFenceLeavesJsonPrefix(body);
    var c := Clean(UpperFence + body + Fence);
    assert c[0] == c[..4][0] == 'J';
  }
}
