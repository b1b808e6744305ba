# Hotels-and-activities finder: a Dafny model of its data-shaping logic

The application takes a place name, geocodes it, asks the Google Places API
for tourist attractions near it and for lodging near each attraction, stores
both lists in a persistent vector collection, asks a Gemini model for a JSON
itinerary (up to ten activities with up to five hotels each), cleans and
decodes the model's answer, and plots the activities on a map.

Every external service is a parameter of the model: the Geocoding and Places
HTTP endpoints (as functions from request to reply), the embedding model, the
vector store's similarity search, the prompt template, the generative model,
the JSON decoder and the HTML template. What the model verifies is what
`app.py` does with their results:

- `wrappers.dfy` (`Wrappers`): `Option`, Python's value-or-`None`.
- `lists.dfy` (`Lists`): flattening a list of lists and the subsequence relation.
- `pystr.dfy` (`PyStr`): `str.replace` (leftmost, non-overlapping), `str.strip`
  (Python's whitespace set), the `in` substring test and `str(n)`.
- `response_parser.dfy` (`ResponseParser`): the cleanup chain and decode of
  `parse_model_response`.
- `document_store.dfy` (`DocumentStore`): the collection as a class whose
  `add` updates its id and document lists; the id loop of `create_or_load_chroma_db`.
- `places.dfy` (`Places`): `get_places_data`, `get_coordinates`,
  `find_hotels_near_activities`.
- `retrieval.dfy` (`Retrieval`): `get_relevant_passages`, `generate_response`.
- `map_view.dfy` (`MapView`): the marker loop of `create_map_html`.

The cleanup deletes every "```json", then every "```", then every "```JSON".
Once the first two deletions have run, no "```" is left, so the third never
matches (`UpperFenceDeletionIsNoOp`). An answer fenced with "```JSON"
therefore keeps a stray `JSON` in front of the array (`UpperFenceLeavesJsonPrefix`),
fails to decode and parses to the empty list (`UpperFenceParsesToEmpty`). So
the code never deletes an upper-case fence; the model follows the code.

## Model

| member | source | states |
|---|---|---|
| PyStr.DeleteIsSubsequence | app.py:155-156 | deleting a pattern with `replace(p, "")` only removes characters: the result is an order-preserving subsequence of the input |
| PyStr.ReplaceAbsent | app.py:155 | `replace` returns its input unchanged when the pattern does not occur in it |
| PyStr.ReplaceSkipsPrefix | app.py:155-156 | `replace` leaves alone a prefix that does not contain the pattern's first character |
| PyStr.DeleteCharMembership | app.py:156 | deleting a one-character pattern removes exactly that character: `x` is in the result iff it is in the input and differs from it |
| PyStr.Strip | app.py:155 | `strip()` gives the slice of the input that neither starts nor ends with whitespace, and all that it cuts off is whitespace |
| PyStr.StripKeepsPrefix | app.py:155 | `strip()` keeps a leading non-whitespace prefix in place |
| PyStr.NatToString | app.py:39 | `str(i)` is a non-empty string of decimal digits without a leading zero |
| PyStr.NatToStringRoundTrip | app.py:39 | reading the decimal rendering back gives the number |
| PyStr.NatToStringInjective | app.py:39 | distinct indices get distinct id strings |
| ResponseParser.Clean | app.py:155-156 | the cleaned text holds no space and no newline, is the response with characters deleted, in their original order, and is no longer than the response |
| ResponseParser.ParseModelResponse | app.py:151-164 | the decoded entries of the cleaned text, and the empty list whenever decoding fails (no error is raised) |
| ResponseParser.DeleteFenceLeading | app.py:155 | deleting "```" reduces a leading run of backticks to its length modulo three |
| ResponseParser.DeleteFenceLeavesNoFence | app.py:155 | after every "```" is deleted, no "```" remains anywhere |
| ResponseParser.UpperFenceDeletionIsNoOp | app.py:155 | after the "```json" and "```" deletions no "```" remains, so the "```JSON" deletion changes nothing |
| ResponseParser.UnfenceWithoutBackticks | app.py:155 | a text without backticks passes the three fence deletions unchanged |
| ResponseParser.LowerFenceIsTransparent | app.py:155-156 | a body wrapped in "```json" ... "```" cleans to exactly what the bare body cleans to |
| ResponseParser.UnfenceUpperFenced | app.py:155 | a body wrapped in "```JSON" ... "```" comes out of the fence deletions as "JSON" followed by the body |
| ResponseParser.CompactKeepsPrefix | app.py:156 | the newline and space deletions pass over a prefix containing neither |
| ResponseParser.UpperFenceLeavesJsonPrefix | app.py:155-156 | an upper-case-fenced answer cleans to a text that starts with "JSON" |
| ResponseParser.UpperFenceParsesToEmpty | app.py:151-164 | with a decoder that rejects texts starting with "J", as every JSON decoder does, an upper-case-fenced answer parses to the empty list |
| Lists.FlattenAppend | app.py:138 | flattening a concatenation is the concatenation of the flattenings |
| Lists.FlattenSnoc | app.py:80 | extending the list of sublists by one extends the flattening by that sublist, which is what `extend` does |
| Lists.FlattenLength | app.py:138 | the flattened list is as long as the sublists together |
| Lists.FlattenIndex | app.py:138 | flattening keeps order: element j of sublist i comes right after all elements of the earlier sublists |
| DocumentStore.Collection.Create | app.py:37 | a newly created collection is empty |
| DocumentStore.Collection.Add | app.py:39 | `add` with an unused id appends the document and its id, and keeps ids unique |
| DocumentStore.SequentialIds | app.py:38-39 | a fresh collection's ids are `str(0)`, ..., `str(n-1)` in input order |
| DocumentStore.SequentialIdsDistinct | app.py:38-39 | those ids are pairwise distinct |
| DocumentStore.CreateOrLoad | app.py:33-49 | an existing collection is returned unchanged and the documents are not added; otherwise a new collection holds exactly the documents in order under ids `str(i)`, and its count equals the number of documents |
| Places.GetPlacesData | app.py:62-69 | a non-200 reply gives the empty list; a 200 reply gives its `results`, or the empty list when that member is missing |
| Places.GetCoordinates | app.py:51-60 | both coordinates are present, or both absent; they are present iff the reply is 200 with a non-empty result list, and then they are the first result's |
| Places.LodgingLookups | app.py:78-80 | one lodging lookup per activity, in activity order, at the activity's `lat,lng` within the radius |
| Places.FindHotelsNearActivities | app.py:75-81 | the result is the in-order concatenation of the per-activity lodging lookups |
| Places.HotelsOfConcatenation | app.py:77-81 | no activities give no hotels; the hotels for two groups of activities are those of the first group followed by those of the second |
| Places.HotelsInActivityOrder | app.py:77-81 | every hotel found near activity i appears in the result, right after those found near the earlier activities |
| Retrieval.ClampCount | app.py:134-136 | the count asked of the store is the minimum of the requested count and the collection size |
| Retrieval.GetRelevantPassages | app.py:128-139 | the passages are the store's answer for the clamped count, flattened in order |
| Retrieval.PassagesFromStore | app.py:137-138 | when the store answers each query with at most k stored documents, every passage is a stored document and there are at most k per query |
| Retrieval.GenerateResponse | app.py:141-149 | no passages give exactly "No relevant information found." whatever the generator would say; otherwise the generator's answer to the structured prompt is returned unchanged |
| MapView.MarkersAreActivities | app.py:170-181 | every marker has type "activity", is not highlighted, and sits at the coordinates its name geocodes to |
| MapView.MarkersKeepEntryOrder | app.py:170-181 | the markers' (name, hotels) pairs form a subsequence of the input entries, in input order |
| MapView.MarkersCount | app.py:170-181 | there is exactly one marker per geocoding entry, repeated entries included; with the subsequence order and every marker's entry geocoding, the markers are exactly the geocoding entries in input order |
| MapView.MarkersComplete | app.py:170-185 | every entry whose activity geocodes to two present coordinates gets its marker; there are no markers exactly when no entry geocodes |
| MapView.BuildActivityMarkers | app.py:168-181 | the loop builds exactly the markers of the geocoding entries, in input order |
| MapView.CreateMapHtml | app.py:166-185 | the result is "" exactly when no entry geocodes, and otherwise the page rendered from the markers |

## Left out

- HTTP transport for the Geocoding and Places endpoints (app.py:51-69): each endpoint is a function from request to reply, so every request gets a reply. In the source, an exception raised by `requests.get` (a connection failure, say) is not caught at app.py:54 or app.py:65 and propagates out of `get_coordinates` and `get_places_data`; only non-200 statuses fail open. The model does not capture those exceptions. The model does not build URLs. The place name is not URL-escaped in the URL, and the model does not capture that. A 200 geocoding reply without a `results` member raises `KeyError`; that case is not modelled.
- Latitudes and longitudes are floats in the source. Here each one is the decimal text Python prints for it. The application only formats coordinates (`f"{lat},{lng}"`) and tests whether they are present.
- Embedding (`GeminiEmbeddingFunction`, app.py:19-31), generation (`generate_answer`, app.py:106-126) and its try/except that turns errors into answer text: these are parameters (`embed`, `generate`). Credential checks are left out.
- The vector store's persistence, similarity search and embeddings (app.py:35-48): the search is a parameter. Detecting "already exists" by matching the exception text becomes an `existing` collection passed in. Other store errors, which propagate, are not modelled.
- DocumentStore.Collection.Add: requires an unused id. The source only adds to a freshly created collection with distinct ids. What the store does with a repeated id is not part of this model.
- `json.loads` (app.py:159) is a decoder parameter returning the entries or `None`. A JSON document that decodes to something other than a list of `{activity, hotels}` objects is outside the model, and so is the `KeyError` that `create_map_html` would raise on such a document.
- `make_structured_prompt` (app.py:83-104) is a parameter (`makePrompt`): a fixed template with interpolation.
- `find_activities` (app.py:71-73) is a single call of the Places lookup with fixed radius and type. It is part of the orchestration.
- The HTML/JavaScript template of `create_map_html` (app.py:187-288) is a parameter `render`, assumed to produce non-empty text, as the fixed template does.
- Console and Streamlit output (`print`, `st.write`), the Streamlit page flow and environment loading (app.py:10-17, 290-323), and setup_ngrok.py (tunnel bootstrapping) are not part of this model.
