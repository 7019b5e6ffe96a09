# The Onion HTTP server library, modelled and proved

This project models the logic of the Onion HTTP server library in Dafny and proves what
its parts promise: the balanced dictionary, JSON printing and parsing, the incremental
request parser, response buffering and framing, the codecs, the poller, the reference
counts of sessions, and the terminal's circular buffer. `dafny verify dfyconfig.toml`
checks all of it.

Code that updates structures in place is modelled in place: tree nodes are objects whose
links are rewritten, blocks and token buffers are arrays, the query string is decoded in
its own buffer, parsers and responses are classes whose methods change their fields. Each
such method is proved to compute a function of the old state, and the properties of that
function are lemmas. Threads are a state machine over their steps.

| file | models |
|---|---|
| AATree, Multimap | the tree of the dictionary as values: rotations, insertion, removal, lookup, and what sequences of them keep |
| Dict | the same tree as linked nodes, and the dictionary object |
| Block, JsonText, JsonDict, JsonRoundTrip | the growable block, JSON strings, printing and parsing of nested dictionaries, the round trip |
| JsonGrammar | the texts that are read as dictionaries, and what they say |
| JsonCopy | hard duplicates of nested dictionaries |
| JsonEnd | which texts are read beyond their end |
| Query | percent-encoding and query strings |
| RequestText, RequestParser | what the bytes of a request mean one by one, and the tokenizers and parsing steps that read them in chunks |
| RequestBody | which body follows the headers, and what whole requests are read as |
| Multipart | the scanner for a file in a multipart body, and the files of a body |
| Chunked | chunked framing with a receiver for it |
| HeaderText, ResponseCalls, Response | the header block and how its lines are found again, what the calls of a handler amount to, and the response buffer |
| Base64 | encoding and decoding with line breaks |
| Poller | the list of slots, and threads that poll, call back, watch and remove |
| Sessions | the session store, the handles requests hold, and whole runs of requests that share it |
| Terminal | the circular output buffer and its readers |
| Bytes, Wrappers | byte strings, C strings and their comparisons; optional values |

Where the code does not do what one would expect, the code is modelled as it is, an input
shows it, and the exact condition is proved:

- Removing a key from a dictionary with duplicate keys can drop another entry's value and
  keep a wrong one twice (`Multimap.RemoveLosesValue`). It is exact if and only if looking
  up the predecessor's key finds the predecessor (`Multimap.RemoveExactIff`); keys alone
  are always right (`Multimap.RemoveKeys`).
- A hard duplicate is compared with `strcmp` whatever the original used: "a" and "B" change
  places (`Dict.HardDupReorders`). It keeps the order if and only if the entries were in
  `strcmp` order (`Dict.Dict.HardDup`), and with nested dictionaries if and only if that
  holds at every level (`JsonCopy.DuplicateKeepsIff`).
- A write that brings more than two buffers together before the headers of a HEAD went out
  never returns (`Response.LongWriteEndless`); exactly then does a response hang
  (`Response.Respond`).
- Writing the headers explicitly while body bytes are buffered sends these bytes in front of
  them (`Response.ByteFirst`), and writing them twice puts them into the body. The wire
  holds the headers first and then exactly what was written if and only if neither happens,
  the second counting only where there is a body (`Response.Respond`; a body that itself
  begins as a status line does could be taken for one).
- A length that differs from the body by a multiple of 2^32 counts as equal when the
  connection is kept alive: 2^32 announced for an empty body (`Response.WrongLengthKept`).
  And what is compared is the length set last, not the field of that name, so a connection
  is kept behind five bytes that are announced as three (`Response.DisagreementKept`). A
  client can tell where a message behind its headers ends if and only if it is that of a
  HEAD, chunked, or has the length of its body in the field (`Response.DelimitedIff`); a
  response that still waits for its headers at the end of the handler always has
  (`Response.SmallDeclares`), and a kept one has if the handler does nothing out of order
  (`Response.Respond`).
- Without the step at the end of the handler, freeing a response sends the buffered body in
  front of the headers (`Response.Response.Free`): `Response.Response.EndHandler` is what
  rules this out.
- A NUL right behind the line of a header makes the request parser loop for ever
  (`RequestText.NulHangs`), and nothing else does (`RequestText.HangsIff`): in the parts of
  a request modelled here, which for a multipart body is the collecting of its bytes.
- A bad line end behind the HTTP version is an error or not depending on where the input is
  cut (`RequestText.BadLineEndMet`); everything else is independent of the cuts
  (`RequestText.ChunkIndependence`), where again the bytes of a multipart body are only
  collected.
- A header goes on in the next line behind white space, but behind a carriage return and a
  new line what it goes on with is dropped: "a" and then "b" is read as "a"
  (`RequestText.FoldLost`). The lines are joined if and only if none of them but the last
  ends with a carriage return (`RequestText.FoldKeptIff`).
- Whether a body follows that is no form and no file is decided on the low 32 bits of its
  length: with a length from 2^31 to 2^32 a request is ready at the end of its headers
  (`RequestBody.ReadyAtOnce`), and it is read with its body if and only if these bits are a
  positive number with a sign (`RequestBody.RequestRoundTrip`).
- The size of a multipart file counts the beginnings of delimiters that came to nothing once
  more, so three new lines are refused where three bytes are allowed
  (`Multipart.NewLinesRefused`); it is checked before the byte is counted, so one byte too
  many can pass; and it runs on from file to file, over the delimiters too, so that ten bytes
  and then five are refused where ten are allowed for a file (`Multipart.FiveRefused`). A
  file is refused if and only if the charge so defined, with what the files before it left,
  passes the limit at a byte that does not continue a delimiter (`Multipart.ParseAll`,
  `Multipart.ParseFiles`); without new lines, if and only if all the files up to it and the
  delimiters between are more than one byte above the limit (`Multipart.PlainFilesRefused`).
- The JSON that is read is not that of RFC 8259: a comma may stand behind the last member,
  control characters may stand in strings, any character may follow a backslash, and the
  only numbers are digits. Exactly these texts are read (`JsonGrammar.ReadIff`).
- A JSON text can be read beyond its end (`JsonEnd.RunsAway`). Without an error in it, it is
  if and only if a string in it is never closed or a key is not quoted
  (`JsonEnd.RunawayIff`), which is never so in a printed dictionary (`JsonEnd.PrintedEnds`).
- The empty string does not survive Base64: its encoding is refused, and nothing else's is
  (`Base64.Base64RoundTrip`).
- A NUL output to the end of a terminal's buffer hides the older part of the output from a
  new reader (`Terminal.NulHides`), and only that does (`Terminal.Process.Initial`).

## Model

| member | source | states |
|---|---|---|
| AATree.SkewInOrder | src/onion/dict.c:279-290 | A skew keeps the in-order sequence. |
| AATree.SplitInOrder | src/onion/dict.c:292-304 | A split keeps the in-order sequence. |
| AATree.RebalanceInOrder | src/onion/dict.c:431-441 | The whole repair after a removal (levels, three skews, two splits) keeps the in-order sequence. |
| AATree.RebalanceAfterLeft | src/onion/dict.c:431-441 | When the left subtree lost a level, the repair restores all level rules, the subtree drops by at most one level, and a horizontal right link at the same level was there before. |
| AATree.RebalanceAfterRight | src/onion/dict.c:431-441 | The same when the right subtree lost a level. |
| Multimap.StableInsertAt | src/onion/dict.c:335-348 | The insertion point of a stable insertion: behind every entry that is not larger, in front of the first that is larger. |
| Multimap.InsertIsStable | src/onion/dict.c:328-355 | Adding without an overwrite is stable sorted insertion into the in-order sequence: equal keys stay in insertion order. |
| Multimap.InsertKeepsAA | src/onion/dict.c:345-354 | Insertion keeps all level rules and raises the root by at most one level. |
| Multimap.InsertKeepsSorted | src/onion/dict.c:328-355 | Insertion keeps the in-order sequence sorted, for any comparison that is a total preorder. |
| Multimap.FindIffPresent | src/onion/dict.c:226-244 | A lookup finds a node if and only if some entry has an equal key, and its key is equal. |
| Multimap.LevelBounds | src/onion/dict.c:279-304 | A subtree of level L has at least 2^L - 1 nodes and height at most 2L. |
| Multimap.SearchBound | src/onion/dict.c:226-244 | A lookup among n entries compares at most 2 log2(n + 1) keys. |
| Multimap.RemoveKeepsAA | src/onion/dict.c:392-442 | Removal keeps all level rules and drops the level by at most one, duplicates or not. |
| Multimap.RemoveAbsent | src/onion/dict.c:392-442 | Removing a key that a lookup does not find changes nothing. |
| Multimap.RemoveExact | src/onion/dict.c:392-442 | With distinct keys, removal takes exactly the entry found by the lookup out of the in-order sequence. |
| Multimap.RemoveKeys | src/onion/dict.c:411-430 | With duplicates, the sequence of keys loses exactly one copy of the removed key. |
| Multimap.RemoveKeepsSorted | src/onion/dict.c:392-442 | Removal keeps the in-order sequence sorted. |
| Multimap.RemoveExactIff | src/onion/dict.c:411-430 | With duplicates whose values differ, removal is exact if and only if a lookup of the predecessor's key stops at the predecessor. |
| Multimap.LossyTreeReachable | src/onion/dict.c:366-376 | Four additions build a tree whose removal is not exact. |
| Multimap.RemoveLosesValue | src/onion/dict.c:425-430 | Removing one key of that tree loses the value of another entry and doubles a third. |
| Multimap.ReplaceOverwrites | src/onion/dict.c:337-342 | Replacing an existing key keeps shape, levels and count, changes the very entry a lookup finds, and the next lookup returns the new one. |
| Multimap.ReplaceOnlyDistinct | src/onion/dict.c:337-342 | A dictionary built only by replacing additions, and removals, has pairwise different keys. |
| Multimap.ReachableBalanced | src/onion/dict.c:366-451 | After any sequence of additions and removals the tree obeys all level rules and is sorted. |
| Multimap.InsertAllIsStableSort | src/onion/dict.c:127-129 | Filling a dictionary without replacement is a stable insertion sort. |
| Multimap.StableSortAdds | src/onion/dict.c:127-129 | That sort adds exactly the given entries. |
| Multimap.CopyKeepsOrderIff | src/onion/dict.c:154-177 | Copying entries into an empty dictionary keeps their order if and only if they were sorted for its comparison. |
| Dict.SkewNode | src/onion/dict.c:279-290 | Relinking nodes computes the skew of the tree they stand for, with the same nodes. |
| Dict.SplitNode | src/onion/dict.c:292-304 | Relinking nodes computes the split, with the same nodes. |
| Dict.DecreaseLevelOf | src/onion/dict.c:307-320 | The levels lowered in place are those of the tree function. |
| Dict.RebalanceNode | src/onion/dict.c:431-441 | The repair after a removal, on linked nodes. |
| Dict.NodeAdd | src/onion/dict.c:328-355 | Adding a node to linked nodes computes the insertion; all nodes stay linked once, with the new one, or its entry moves into the node replaced. |
| Dict.TakeNext | src/onion/dict.c:411-417 | The removed node takes over its successor's entry, whose flags are cleared so that nothing is freed twice. |
| Dict.TakePrevious | src/onion/dict.c:420-426 | The same with the predecessor. |
| Dict.NodeRemove | src/onion/dict.c:392-442 | Removal by key on linked nodes computes the removal of the tree; no node is linked that was not before. |
| Dict.FindNode | src/onion/dict.c:226-244 | The lookup returns the node the tree function finds, or null. |
| Dict.NodeCount | src/onion/dict.c:540-560 | The number of entries. |
| Dict.Dict.constructor | src/onion/dict.c:88-103 | An empty dictionary compared with `strcmp`, with one reference. |
| Dict.Dict.Add | src/onion/dict.c:366-376 | Adding keeps the nodes linked, balanced and sorted, and is the insertion; without a key nothing is added. |
| Dict.Dict.Remove | src/onion/dict.c:451-458 | Removing keeps the nodes linked, balanced and sorted, and is the removal. |
| Dict.Dict.Get | src/onion/dict.c:460-472 | The value of the entry found if it holds a string; nothing if no entry has an equal key; only values of entries with an equal key. |
| Dict.Dict.GetDict | src/onion/dict.c:475-482 | The value of the entry found if it holds a dictionary. |
| Dict.Dict.AddFrom | src/onion/dict.c:514-538 | A traversal visits the entries in order, and the callback adds each to another dictionary. |
| Dict.Dict.Merge | src/onion/dict.c:113-129 | Merging adds the other dictionary's entries in its order, with their flags and nested dictionaries duplicated. |
| Dict.CopyFlags | src/onion/dict.c:113-160 | Merging keeps every flag of an entry but that key and value are duplicated; a hard duplicate keeps its type alone, so it replaces nothing; only nested dictionaries become another value. |
| Dict.Dict.HardDup | src/onion/dict.c:154-177 | A hard duplicate has the same entries, nested dictionaries duplicated, and has them in the same order if and only if they were in `strcmp` order. |
| Dict.HardDupReorders | src/onion/dict.c:154-177 | "a" and "B" in a dictionary that ignores case change places in its hard duplicate. |
| JsonCopy.DuplicateKeepsIff | src/onion/dict.c:154-177 | With dictionaries inside, a hard duplicate says the same, in the same order at every level, if and only if every dictionary down to the innermost was in `strcmp` order. |
| JsonCopy.HardDup | src/onion/dict.c:259-277 | Duplicating a linked dictionary gives that duplicate. |
| Dict.Dict.SetFlags | src/onion/dict.c:106-110 | Only the comparison changes, and a dictionary with entries stays a valid one if and only if they are sorted for the new comparison. |
| Bytes.StrCmpPreorder | src/onion/dict.c:88-110 | `strcmp` is a total preorder in which only identical strings are equal. |
| Bytes.StrCmpDecides | src/onion/dict.c:88-103 | The first byte that differs decides, or the length. |
| Bytes.StrCaseCmpPreorder | src/onion/dict.c:106-110 | `strcasecmp` is a total preorder. |
| Bytes.CaseEqualIff | src/onion/dict.c:106-110 | Strings compare as equal if and only if they have the same letters of the alphabet in either case, and otherwise the same bytes. |
| Bytes.StrCaseCmpDecides | src/onion/dict.c:106-110 | Otherwise the first letter that differs decides, in small letters, or the length. |
| Block.Block.MinMaxsize | src/onion/block.c:79-90 | Growing keeps the contents and makes the room asked for. |
| Block.Block.AddChar | src/onion/block.c:128-141 | One byte is appended. |
| Block.Block.Data | src/onion/block.c:93-104 | The contents followed by a NUL, read as a C string. |
| Block.Block.Rewind | src/onion/block.c:117-125 | The last n bytes are dropped, or all of them. |
| Block.Block.AddData | src/onion/block.c:155-176 | A stretch of bytes is appended, also one of the block itself that moves when the block grows. |
| Block.Block.AddBlock | src/onion/block.c:179-181 | The contents of another block, or of the same one, are appended. |
| JsonText.QuoteHasNoControls | src/onion/codecs.c:537-585 | Quoted text has no control character and no DEL. |
| JsonText.QuoteAdd | src/onion/codecs.c:537-585 | The quoted text is appended; without a string nothing is. |
| JsonText.ReadHex4 | src/onion/codecs.c:587-605 | Four hexadecimal digits as a number, or zero if there are not four. |
| JsonText.Utf8RoundTrip | src/onion/codecs.c:666-684 | The bytes emitted for a code point decode, by section 3 of RFC 3629, to that code point. |
| JsonText.AddUtf8 | src/onion/codecs.c:666-684 | The loop that builds the bytes from the last to the first appends exactly the UTF-8 encoding. |
| JsonText.ReadsCodePoint | src/onion/codecs.c:646-686 | For every code point but zero and the surrogates, its escape, or surrogate pair, in any letter case, reads as exactly its UTF-8 encoding and is consumed exactly. |
| JsonText.RefusesUnpaired | src/onion/codecs.c:646-664 | In any digits and letter case, the escape of zero and of a lone low surrogate is refused, and that of a high surrogate if and only if no escaped low one follows. |
| JsonText.RefusesMalformed | src/onion/codecs.c:587-605 | An escape of fewer than four hexadecimal digits is refused. |
| JsonText.ReadsOnlyCodePoints | src/onion/codecs.c:646-686 | A `\u` is read if and only if it begins the escape of a code point other than zero and the surrogates. |
| JsonText.ReadsQuoted | src/onion/codecs.c:618-706 | Unquoting undoes quoting for every string without a NUL, and ends behind the closing quote. |
| JsonText.UnquoteAdd | src/onion/codecs.c:618-706 | The bytes unquoted are appended and the length consumed is returned, or an error. |
| JsonText.OverrunIff | src/onion/codecs.c:618-706 | A quoted string without an error is read beyond the end of the text if and only if no quote behind its beginning has an even number of backslashes before it. |
| JsonDict.PrintPair | src/onion/dict.c:596-618 | One entry is printed: quoted key, colon, quoted string or nested dictionary, separator. |
| JsonDict.ToJson | src/onion/dict.c:629-648 | The block holds the printed dictionary, the last separator taken back. |
| JsonDict.ReadValue | src/onion/dict.c:772-802 | The method reads a value at the cursor and adds it under its key as the function does that `JsonGrammar.ReadsValue` describes. |
| JsonDict.ReadMembers | src/onion/dict.c:738-832 | The loop over members reads what the recursive grammar reads, and fails where it fails. |
| JsonDict.DictFromJson | src/onion/dict.c:721-832 | Parsing a text gives what the function gives that `JsonGrammar.ReadIff` describes, or null. |
| JsonGrammar.ReadsPieces | src/onion/codecs.c:618-706 | A string written in any way, each character as it is, behind a backslash or as a `\u` escape, is read as what it says, up to its quote. |
| JsonGrammar.ReadsValue | src/onion/dict.c:772-802 | A string, a run of digits or a nested dictionary is read as exactly the string, all of the digits, or the dictionary, and added under its key. |
| JsonGrammar.ReadsMembers | src/onion/dict.c:738-832 | Members with any space between the tokens, and maybe a comma behind the last, are added in their order. |
| JsonGrammar.TreeInOrder | src/onion/dict.c:721-832 | The keys and values of such a text stand in stable `strcmp` order. |
| JsonGrammar.ReadsText | src/onion/dict.c:721-832 | A text by whomever, with members of strings, digits and nested dictionaries and any space between, is read as exactly its keys and values at every level. |
| JsonGrammar.ReadIff | src/onion/dict.c:721-832 | A text is read if and only if it is one of these. |
| JsonEnd.KeyRunawayIff | src/onion/dict.c:738-748 | A key is read beyond the end of the text if and only if it has no error and is not closed, or not quoted. |
| JsonEnd.RunawayIff | src/onion/dict.c:721-832 | A text without an error is read beyond its end if and only if some quote that opens a string has no closing one, or something else than a quote or a closing brace follows a brace or a comma outside of strings. |
| JsonEnd.PrintedEnds | src/onion/dict.c:629-648 | A printed dictionary has neither. |
| JsonEnd.RunsAway | src/onion/dict.c:721-832 | The text of an opening brace and a letter is read beyond its end. |
| JsonRoundTrip.ReadsMembers | src/onion/dict.c:738-832 | Printed members, read into a dictionary they sort behind, are appended in order, whatever text follows. |
| JsonRoundTrip.ReadsDict | src/onion/dict.c:596-648 | A printed dictionary inside any text reads back with the same members, and the cursor stops behind it. |
| JsonRoundTrip.JsonRoundTrips | src/onion/dict.c:596-648 | For every nested `strcmp` dictionary of strings without NUL, duplicates included, parsing what was printed gives recursively the same sequence of keys and values. |
| Query.QuoteInto | src/onion/codecs.c:298-320 | With exactly the room needed, the whole encoding and its NUL are written and nothing else. |
| Query.QuoteNew | src/onion/codecs.c:280-293 | What is allocated is exactly the encoding and its NUL. |
| Query.UnquoteQuoted | src/onion/codecs.c:253-275 | Decoding undoes encoding for every byte string. |
| Query.UnquoteSpelt | src/onion/codecs.c:253-275 | Every spelling of a text is decoded to it: bytes as they are, spaces as plus signs, and two hexadecimal digits of either case. |
| Query.EscapedIsStrToL | src/onion/codecs.c:258-262 | Any two characters behind a percent sign are what `strtol` in base 16 makes of them, in a byte. |
| Query.UnquoteInplace | src/onion/codecs.c:253-275 | Decoding in place writes the decoded bytes where the encoded ones stood, never ahead of what is still to be read, and nothing outside. |
| Query.ParseQueryToDict | src/onion/request_parser.c:970-1014 | Splitting and decoding a query in its buffer adds every pair in order, and in the end the buffer reads the decoded string at every pointer handed to the dictionary. |
| Query.QueryRoundTrip | src/onion/request_parser.c:970-1014 | Any list of pairs, encoded and joined with ampersands, splits and decodes into exactly that list. |
| Query.ReadsQuery | src/onion/request_parser.c:970-1014 | A query spelt in any way is read as its pairs, with parts without an equals sign and empty parts, but for an empty one at the end. |
| Query.QueryDictionary | src/onion/request_parser.c:970-1014 | The dictionary parsed from it holds exactly those pairs, equal keys in their original order. |
| RequestText.FeedBody | src/onion/request_parser.c:319-391 | A body is taken over byte for byte, as many bytes as announced and not one behind them. |
| RequestText.ChunkIndependence | src/onion/request_parser.c:912-935 | However the input is cut, the request filled, the phase reached and the byte it is reached at are those of one call; errors too, but for a bad line end behind the version, and but for multipart bodies, whose bytes are only collected. |
| RequestText.BadLineEndDepends | src/onion/request_parser.c:285-305 | That one error changes with the cut between its two bytes. |
| RequestText.BadLineEndMet | src/onion/request_parser.c:285-305 | Any request line with two bytes behind the version that are no line end fails as a whole and does something else when cut between the two. |
| RequestText.NoErrorNoBadLineEnd | src/onion/request_parser.c:285-305 | Input that is accepted as a whole has no such line end, so it is accepted however it is cut. |
| RequestText.HangsIff | src/onion/request_parser.c:747-755 | An input makes the parser hang if and only if somewhere in it a NUL is the first byte behind a new line that ends the value of a header. |
| RequestText.NulHangs | src/onion/request_parser.c:747-755 | Any request line and header with a NUL behind them is such an input. |
| RequestText.NulFreeReturns | src/onion/request_parser.c:912-935 | On input without NUL no call hangs. |
| RequestText.HeadRoundTrip | src/onion/request_parser.c:785-900 | A request head written by hand (a known method, path and query in any spelling, any version or none, headers over one line or several, lines that end with or without a carriage return) is read exactly: headers sorted without regard to case, equal names in line order. |
| RequestText.FoldKeptIff | src/onion/request_parser.c:729-772 | The lines a header goes on in are part of its value if and only if no line in front of one ends with a carriage return. |
| RequestText.FoldLost | src/onion/request_parser.c:217-220 | A value "a" that goes on with "b" behind a carriage return and a new line is read as "a". |
| RequestText.StrStrFinds | src/onion/request_parser.c:797-800 | A word is found where it occurs first, if it occurs. |
| RequestBody.ReadsNumber | src/onion/request_parser.c:1029-1101 | A number is read behind white space, with a sign or not and with zeros in front, up to the first other character; nothing is zero, and beyond 64 bits it is the end of their range. |
| RequestBody.HeaderFound | src/onion/request_parser.c:796-811 | Looking up a header finds the value of one of that name in any letters, if there is one. |
| RequestBody.OneKind | src/onion/request_parser.c:796-814 | When at most one header names the type of the content, a request is a form, parts, a file that is put, or none of these, and only one of them. |
| RequestBody.FormRoundTrip | src/onion/request_parser.c:1034-1047 | A form, cut anywhere, is ready at the last byte of its body with exactly its pairs in the POST dictionary, however they are spelt. |
| RequestBody.FileRoundTrip | src/onion/request_parser.c:1122-1171 | A file that is put, cut anywhere, is ready at its last byte with exactly its bytes, also with none. |
| RequestBody.RequestRoundTrip | src/onion/request_parser.c:319-346 | Any other counted body, cut anywhere, is taken exactly, if the low 32 bits of its length are a positive number; bytes behind it are not looked at. |
| RequestBody.WaitsForBody | src/onion/request_parser.c:319-391 | Before the last byte of its body a request is not ready, and the body so far is kept. |
| RequestBody.ReadyAtOnce | src/onion/request_parser.c:796-814 | A request is ready at the end of its headers when no length is announced, or zero, or, for other than forms and files, one whose low 32 bits are not a positive number. |
| RequestBody.RefusedAtOnce | src/onion/request_parser.c:1019-1101 | It is refused there when a form or a file announces no length, when a body is longer than allowed, and when parts have no boundary. |
| RequestBody.PartsCollected | src/onion/request_parser.c:1050-1071 | The parts of a body are collected with the text behind the first "boundary=" and the room that is left. |
| RequestBody.UnknownMethod | src/onion/request_parser.c:877-900 | A method that is not known is answered as such, cut anywhere. |
| RequestBody.LineWithoutColon | src/onion/request_parser.c:177-188 | A line without a colon among the headers is an error, cut anywhere. |
| RequestParser.Token.ReadString | src/onion/request_parser.c:101-131 | Characters up to white space join what was kept from earlier chunks; the token is complete, or all input is used. |
| RequestParser.Token.ReadUntil | src/onion/request_parser.c:141-174 | The same up to a delimiter or new line, without carriage returns, telling an empty line apart. |
| RequestParser.Token.ReadLine | src/onion/request_parser.c:191-223 | The same up to a new line; a line that is too long is cut, a carriage return at its end overwritten. |
| RequestParser.Token.ReadNewLine | src/onion/request_parser.c:285-305 | The rest of a line end; one byte of it is forgotten at the end of a chunk. |
| RequestParser.Parser.ParseCONTENT_LENGTH | src/onion/request_parser.c:319-346 | A stretch of a counted body leads to the state its bytes lead to. |
| RequestParser.Parser.ParsePUT | src/onion/request_parser.c:353-391 | The same for a file that is put. |
| RequestParser.Parser.ParsePOST_urlencode | src/onion/request_parser.c:226-241 | The same for a form, where the end of the input moves instead of the position. |
| RequestParser.Parser.PreparePOST | src/onion/request_parser.c:1019-1086 | The method decides which body follows a POST as the function does that `RequestBody.FormRoundTrip`, `RequestBody.PartsCollected` and `RequestBody.RefusedAtOnce` describe. |
| RequestParser.Parser.PreparePUT | src/onion/request_parser.c:1122-1171 | The same for a PUT. |
| RequestParser.Parser.PrepareCONTENT_LENGTH | src/onion/request_parser.c:1091-1115 | The same for other bodies. |
| RequestParser.Parser.HeadersEnd | src/onion/request_parser.c:796-814 | What the empty line behind the headers leads to. |
| RequestParser.Parser.ParseKEY | src/onion/request_parser.c:785-819 | From a header key on, the parser goes as far as the bytes lead, or stops with their error. |
| RequestParser.Parser.ParseVALUE | src/onion/request_parser.c:774-783 | The same from a header value on. |
| RequestParser.Parser.ParseVALUE_multiline_if_space | src/onion/request_parser.c:747-772 | The same from the end of a header line on, with a peek at the next byte that may be in the next chunk. |
| RequestParser.Parser.ParseVALUE_skip_leading_whitespace | src/onion/request_parser.c:729-744 | The same inside the white space of a header that goes on. |
| RequestParser.Parser.ParseKEY_skip_NL | src/onion/request_parser.c:821-831 | The same from the end of the request line on. |
| RequestParser.Parser.ParseVERSION | src/onion/request_parser.c:833-854 | The same from the version on. |
| RequestParser.Parser.ParseURL | src/onion/request_parser.c:856-875 | The same from the address on. |
| RequestParser.Parser.ParseQuery | src/onion/request_parser.c:940-963 | The path and the query of an address, cut at the first question mark and decoded. |
| RequestParser.Parser.ParseGET | src/onion/request_parser.c:877-900 | The same from the method on; an unknown method is refused. |
| RequestParser.Parser.Write | src/onion/request_parser.c:912-935 | One call leaves the parser in the state its bytes lead to one by one, or tells how the request ended. It returns, by a measure of bytes left and the peek, unless those bytes hang. |
| RequestParser.WriteAll | src/onion/request_parser.c:912-935 | Calls with one chunk after another have the outcome of the whole input: the same request, ready at the same byte, or the same error. |
| Multipart.ByteMatches | src/onion/request_parser.c:406-420 | A byte that continues a delimiter keeps the scan's invariant, or completes the first delimiter. |
| Multipart.ByteDiffers | src/onion/request_parser.c:434-463 | A byte that does not continue one restores the bytes held back exactly, and is looked at again. |
| Multipart.Scanner.Parse | src/onion/request_parser.c:399-486 | Some input is scanned: all of it without a delimiter, or up to the end of the first one with the file complete and the size run on; and it is refused if and only if at a byte before that, which breaks a match off or belongs to none, the charge is above the room the limit and the files before leave. |
| Multipart.ParseAll | src/onion/request_parser.c:399-486 | For every token without a new line and every chunking, the stream is refused if and only if its charge passes the room; otherwise the file is closed if and only if the stream has a delimiter, holds exactly the bytes before the first, the size has run on by the charge, and parsing resumes right behind. |
| Multipart.ParseFiles | src/onion/request_parser.c:399-486 | All files of a body, each in any chunks, are stored exactly, unless and only unless one is refused, what those before it left counted in. |
| Multipart.RefusedFile | src/onion/request_parser.c:434-463 | A file with its delimiter is refused exactly if it is on its way, or if it ends in the beginning of a delimiter and is charged more than the room. |
| Multipart.LeftBehind | src/onion/request_parser.c:438-477 | A file leaves for those behind it its charge, what stood at its end once more, and the delimiter but for one byte. |
| Multipart.ChargeBounds | src/onion/request_parser.c:441-477 | A file is charged at least its size and at most three times that. |
| Multipart.OversizedRefused | src/onion/request_parser.c:434-440 | Every file of more than one byte above the room is refused. |
| Multipart.PlainFileRefused | src/onion/request_parser.c:434-440 | Without new lines, a file is refused if and only if it has more than one byte above the room, and any byte at all. |
| Multipart.PlainFilesRefused | src/onion/request_parser.c:434-477 | Without new lines, a file is refused if and only if all the files up to its end and the delimiters between are more than one byte above the limit, and it is not empty. |
| Multipart.FiveRefused | src/onion/request_parser.c:1062-1079 | Ten bytes and then five: the five are refused where ten are allowed, and would not be alone. |
| Multipart.NewLinesRefused | src/onion/request_parser.c:434-463 | Three new lines are refused with a limit of three, three other bytes are not, nor is one byte with a limit of zero. |
| Chunked.HexFolds | src/onion/response.c:428-430 | The chunk size printed in hexadecimal reads back as the size. |
| Chunked.DechunksAll | src/onion/response.c:428-458 | A receiver by section 4.1 of RFC 7230 decodes chunks that are not empty to their contents, in front of anything. |
| Chunked.DechunksMessage | src/onion/response.c:171-173 | With the last chunk, it decodes the whole message. |
| Response.Response.SendBuffer | src/onion/response.c:441-455 | Short socket writes are repeated until the buffer is sent, or the connection is closed. |
| Response.Response.SendChunk | src/onion/response.c:428-458 | The buffer goes out as one chunk. |
| Response.Response.Flush | src/onion/response.c:402-462 | Whatever is in the buffer goes out in order behind what was sent, after the headers if they were not out; with content skipped nothing does. |
| Response.Response.WriteHeaders | src/onion/response.c:278-350 | The headers go out behind the body bytes that were already buffered; headers that were out join the body, which is counted anew. |
| Response.Response.EndHeaders | src/onion/response.c:318-350 | The empty line ends the header block, and decides on chunks and on skipping the body of a HEAD. |
| Response.Response.Write | src/onion/response.c:356-395 | The bytes written are accepted in order, whatever the buffer held and whether the headers are out; the one case that never returns is told. |
| Response.Response.SetLength | src/onion/response.c:221-232 | The length is set and its field with it, unless the headers are out and it is not the length already sent. |
| Response.Response.EndHandler | src/onion/handler.c:71-75 | At the end of a handler a short response that waits for its headers gets its length, and the buffer is emptied. |
| Response.Response.Free | src/onion/response.c:160-205 | The wire holds what was too late for the headers, the header block with the fields and the length set, and then the body, framed as announced; the decision to keep the connection is exact. |
| Response.Response.EndsChunked | src/onion/response.c:171-173 | A chunked message ends with one empty chunk and decodes to the body. |
| Response.Respond | src/onion/response.c:160-188 | For any sequence of calls, with short socket writes: what was too late for the headers, the headers with the fields, status and length of the calls, then exactly the rest; headers first and then exactly the bytes written if and only if no header write comes too late or twice; chunked if and only if no length was set, in HTTP/1.1 on a connection to keep; the status line in front is that of the calls. A client that says "close" in any letters is not kept over HTTP/1.1, nor one that does not say "keep-alive" over HTTP/1.0, nor one that is not to be kept at all; over HTTP/1.1 one that says nothing is, if the length is right. It hangs if and only if a HEAD gets a write that never returns. With no length set late, the connection is kept if and only if the client allows it and the message is that of a HEAD, chunked, or has the length set last in 32 bits; and a kept message is self-delimiting if the handler does nothing out of order. |
| Response.DelimitedIff | src/onion/response.c:160-188 | A message behind its headers is self-delimiting if and only if it answers a HEAD, is chunked, or its length field has the length of its body. |
| Response.SmallDeclares | src/onion/handler.c:71-75 | A response that waits for its headers at the end of the handler has the length of its body in the field, whatever was set before. |
| Response.DisagreementKept | src/onion/response.c:160-188 | With a length of five set, the field then set to three, and five bytes written and flushed, the connection is kept and the message is not self-delimiting. |
| ResponseCalls.RunOnce | src/onion/response.c:278-350 | Without a second header write, what goes in front of the headers and behind them is together what was written, and what is behind is what is counted. |
| ResponseCalls.RunFront | src/onion/response.c:278-350 | Something goes out in front of the headers if and only if they are written while bytes wait for them. |
| Response.ByteFirst | src/onion/response.c:278-350 | A byte written, and then the headers: the byte goes first. |
| Response.LongWriteEndless | src/onion/response.c:366-387 | A first write of more than two buffers never returns for a HEAD. |
| Response.WrongLengthKept | src/onion/response.c:160-188 | With 2^32 announced for an empty body the connection is kept. |
| HeaderText.PiecesAreBlock | src/onion/response.c:278-318 | The writes of the header block, one behind the other, are its lines. |
| HeaderText.InsertShows | src/onion/response.c:209-215 | Setting a field replaces the one of that name, and leaves the others. |
| HeaderText.FieldHeld | src/onion/response.c:248-256 | Every field that is set has its line in the block, and so has the coding of a chunked body. |
| HeaderText.OnlyFieldsHeld | src/onion/response.c:278-318 | A line of the block is that of a field, or of the coding of a chunked body, or about the connection or the cookie. |
| HeaderText.OwnLineHeld | src/onion/response.c:278-318 | The block holds the lines about the coding, the connection and the session that the request and the response call for. |
| HeaderText.LineHeldIff | src/onion/response.c:278-318 | A named line stands in the block if and only if it is that of a field, or one of those. |
| HeaderText.StatusFirst | src/onion/response.c:278-290 | The block begins with the version, the status and its reason. |
| HeaderText.KeepAliveIff | src/onion/request.c:485-499 | The connection may be kept over HTTP/1.1 unless the client says "close", and over HTTP/1.0 only if it says "keep-alive", in any letters, and never if it is not to be kept. |
| ResponseCalls.WholeIs | src/onion/response.c:221-232 | The length, the fields and what is counted in the end, from the calls. |
| ResponseCalls.WaitingIs | src/onion/response.c:356-462 | The headers wait, with all that was written, until a call sends them: the explicit write, a flush of something, or a write that fills the buffer or is empty behind something. |
| ResponseCalls.FieldIs | src/onion/response.c:209-232 | A field has the value it was given last before the headers went out, and otherwise the one it began with. |
| ResponseCalls.CodeIs | src/onion/response.c:239-241 | The status is the one set last before the headers went out, and otherwise 200. |
| ResponseCalls.LengthNamed | src/onion/response.c:221-232 | A length set behind every field of its name is the one in the field. |
| Base64.ValueOfCode | src/onion/codecs.c:44-57 | The decoding table inverts the encoding table, whose characters are neither blank nor padding. |
| Base64.EncodedShape | src/onion/codecs.c:174-240 | Without line breaks the text is section 4 of RFC 4648; it ends with a new line. |
| Base64.FitsTightly | src/onion/codecs.c:165-166 | The text and its NUL fit what is allocated, with no byte to spare exactly for lengths that leave one over a multiple of three. |
| Base64.Encode | src/onion/codecs.c:162-245 | The two passes over full lines and the rest write the text and its NUL, within the allocation. |
| Base64.DecodeText | src/onion/codecs.c:89-156 | The decoded bytes and their number, null for bad lengths, and where the original reads outside. |
| Base64.Base64RoundTrip | src/onion/codecs.c:89-245 | Decoding undoes encoding if and only if the data is not empty. |
| Poller.SlotList.ClearSlot | src/onion/poller.c:160-177 | Clearing a slot that is not linked leaves the list as it is. |
| Poller.SlotList.Link | src/onion/poller.c:404-412 | A slot is linked behind the head, through the table of slots. |
| Poller.SlotList.Unlink | src/onion/poller.c:441-471 | A descriptor is taken off the list wherever it stands, or not found. |
| Poller.EventsFor | src/onion/poller.c:225-235 | Whatever a slot is set to, its events are one-shot and hang-ups are seen. |
| Poller.Preserves | src/onion/poller.c:504-584 | Every step of every thread, and every step of the kernel, keeps the invariant: linked, watched and armed descriptors are open, and each descriptor has at most one owner. |
| Poller.OneCallback | src/onion/poller.c:540-560 | Over all interleavings a descriptor's callback runs in at most one thread, and is the one set since the descriptor was last opened. |
| Poller.EventCalls | src/onion/poller.c:541-560 | An event that is no hang-up starts the callback of its descriptor. |
| Poller.SuccessRearms | src/onion/poller.c:564-575 | After a callback that did not fail, whatever other threads do, the next step of its thread leaves the descriptor armed, open, linked and watched with the same slot. |
| Poller.FailureRemoves | src/onion/poller.c:541-566 | After a callback that failed, or a hang-up, the next three steps of the thread leave it unwatched, unarmed and unlinked. |
| Poller.NoneIsLost | src/onion/poller.c:504-584 | In every reachable state a watched descriptor is armed or in the hands of a thread, and a linked one is watched or in such hands. |
| Poller.SlotReuseSafe | src/onion/poller.c:160-177 | A slot is never made anew while it is linked, watched, armed, waiting in a thread's events or in a callback. |
| Poller.RemovalFinds | src/onion/poller.c:433-474 | A removal finds its descriptor on a list of distinct descriptors, so the missing check for an empty list does no harm. |
| Sessions.Sessions.Get | src/onion/sessions_mem.c:35-44 | A session that is stored is returned with one more handle. |
| Sessions.Sessions.Save | src/onion/sessions_mem.c:46-57 | The store takes its reference and gives up the one it had; saving again what is stored never frees it, and only the dictionary replaced can be freed. |
| Sessions.Sessions.Remove | src/onion/sessions_mem.c:48-54 | The entry goes, and its dictionary is freed only if nobody holds a handle. |
| Sessions.Sessions.Create | src/onion/sessions.c:91-100 | A new empty session with the store's reference alone; a session that had the identifier leaves the store, and is freed only if nobody holds it. |
| Sessions.Sessions.Release | src/onion/dict.c:195-217 | A handle is given back, and the dictionary freed exactly with the last reference. |
| Sessions.Sessions.Alive | src/onion/sessions.c:106-116 | A dictionary in the store or with a handle is never freed. |
| Sessions.Request.GuessSessionId | src/onion/request.c:389-431 | The first identifier of the cookie that is in the store becomes the request's, with its session; without an identifier in the end, none of them is in the store. |
| Sessions.Request.GetSessionDict | src/onion/request.c:447-463 | A request gets the session it has; otherwise the stored one under the first identifier of the cookie that is in the store; and a new empty one, stored under the new identifier, if none of them is. It holds one handle of it. |
| Sessions.Request.SessionFree | src/onion/request.c:510-523 | The session the request has, or the first of the cookie that is stored, leaves the store, and nothing else does; a dictionary another request holds stays valid. |
| Sessions.Request.Clean | src/onion/request.c:200-211 | At the end an empty session ends and another is saved; either way one handle is given back, and all others stay valid. |
| Sessions.Request.Finish | src/onion/request.c:200-211 | An empty session leaves the store, another one is stored; the request has neither afterwards. |
| Sessions.Serve | src/onion/request.c:200-211 | Requests that share a store, acting in any order and number: every session dictionary ends with one reference for each entry of the store and each request that uses it, and is freed exactly when there is none, so none in use is ever freed. |
| Sessions.Step | src/onion/request.c:447-463 | What one request does with its session keeps the counts right for all of them. |
| Terminal.Process.DataReady | examples/oterm/oterm_handler.c:481-512 | Output joins the stream, and the buffer holds the last of it, across the wrap. |
| Terminal.Process.Out | examples/oterm/oterm_handler.c:462-475 | A reader gets exactly what followed its position if and only if fewer than a whole buffer of bytes arrived since, or one whole buffer from the start; with nothing new it waits. |
| Terminal.Process.Initial | examples/oterm/oterm_handler.c:447-461 | The first look is the last full buffer of output if and only if the last byte of the buffer is not a NUL or was not reached; always for output without NUL. |
| Terminal.NulHides | examples/oterm/oterm_handler.c:447-461 | A NUL output to the end of the buffer hides the older part from a new reader. |
| Terminal.Follow | examples/oterm/oterm_handler.c:447-512 | Answers polled in time add up to exactly the output. |

## Left out

- Sockets, TLS, epoll and timer calls, files, logging and clocks: their effects are byte sequences, parameters or steps of the environment; a failing write of a temporary file is not modelled.
- Locks: each dictionary and session operation is one atomic step; only the poller is interleaved.
- Sessions.Serve: what a request does with its session at a time is one step.
- Memory: what is freed and which entry owns its strings is modelled for session dictionaries and for the flags a removal clears, not for every string.
- Dictionaries inside dictionaries are held by value, so two dictionaries that share a nested one are not modelled, and `Dict.Dict.Add` takes a nested dictionary that its caller has duplicated where the flags ask for it.
- Integer widths: response lengths wrap at 32 bits and `atoi`, `atol` and `size_t` are modelled; string lengths, block sizes and dictionary counts are unbounded.
- Query.UnquoteInplace: a percent sign with fewer than two bytes behind it is outside the contract, because the decoder then reads beyond the terminator.
- Query.ParseQueryToDict: the same strings are outside it.
- RequestParser.Parser.Write: a token that fills its buffer and an incomplete percent escape are outside the contract, because what happens then depends on memory behind the buffer and on where the input was cut.
- RequestParser.WriteAll: the same inputs are outside it.
- RequestParser.Token.ReadString: the same tokens are outside it.
- RequestParser.Token.ReadUntil: the same tokens are outside it.
- RequestParser.Parser.ParseQuery: path and query are values here, so the cut in the buffer of the address is not carried into the parser; Query.ParseQueryToDict works in its own.
- RequestParser.Token.ReadLine: for an empty value the original looks at the byte before its buffer; the model takes it for something other than a carriage return.
- RequestParser.Parser.ParseMultipart: the parts of a multipart body are only collected here, so that a request with one is never ready and never fails behind its headers; of their parsers the file scanner is modelled, by itself.
- RequestBody.HeaderFound: which of several headers of one name is found is not said, so the lemmas about bodies ask for one that names the type of the content and one that names the length.
- RequestText.ChunkIndependence: so it does not cover the errors and the end of multipart bodies.
- The parser of multipart form fields in memory, whose fallback copies other bytes than it held back.
- The dictionaries of a request are values built by the functions that the dictionary's methods are proved to compute.
- JsonText.UnquoteAdd: for a string without its closing quote the original reads on behind the text; the model reports this as a separate outcome.
- JsonDict.ToJson: the error branch for a failing print is not modelled, since printing a string value never fails.
- Query.QuoteInto: other sizes of the result buffer than the exact one, which only `onion_quote` callers outside the library use.
- Response.Response.Free: the library's total of bytes sent and the access log line.
- Response.Response.SetLength: a length of 16 digits or more, which the original prints into 16 bytes and so past their end.
- Response.Respond: that header writes are in order follows from headers that come first only for a body that does not begin as a status line does, and that only fields and codings of the response can make it self-delimiting only for names and values without line ends; after a length set behind the headers, which is taken only if it is the one sent so far, only what does not depend on it is stated.
- Base64.DecodeText: the contents of the buffer returned for a text of blanks, which are not initialised.
- Poller.OneCallback: a callback that yields and keeps its descriptor out of the poller, timeouts, and stopping the poller.
- Sessions.Request.GuessSessionId: how identifiers are cut out of the cookie is a parameter.
- Sessions in SQLite and Redis, and expiry.
- Terminal.Process.Out: positions a client makes up.
- `onion_c_quote`, HTML quoting, URL routing, MIME types, range and etag handling, websockets, templates, language bindings and the other examples: they are separate from the parts above, or belong to other libraries.
