# Skype Web message scraper: a verified model of its core

The repository holds four near-duplicate versions of a scraper for Skype Web
(`skype_web_extractor.py`, `skype.py`, `base.py`, `skype5.py`). Each drives a
browser, opens the listed conversations one by one, reads the accessibility label
(`aria-label`) of every message node and turns it into a record of sender
(`Nom`), content (`Message`) and time (`Heure`).

This project models the logic around the browser calls and proves its properties.

- **`Strings`** (`strings.dfy`): Python's `str.split` with a non-empty separator.
  Cuts are leftmost and non-overlapping, and the result is never empty. Also models
  `str.join`, and proves both round trips.
- **`MessageParser`** (`parser.dfy`): `extract_message_info`, the same in all four
  files, on the label string.
- **`Records`** (`records.dfy`): a record, its key `Nom_Message_Heure`, the set of
  keys of a list, and "no two records share a key".
- **`Accumulation`** (`accumulation.dfy`): what the scraping loops compute, as
  functions of the labels read.
  - `AddUnique` and `RunUnique` model the run-scoped de-duplication of
    `skype_web_extractor.py` and `skype.py`.
  - `AddAll` and `RunAll` model the filter-only loop of `base.py` and `skype5.py`.
  - `Processed` says which labels a conversation contributed before it ended or
    failed.
  - `FailureLog` is the list of logged conversation numbers.
- **`ScrollLoader`** (`scroll.dfy`): the scroll-convergence loop of
  `skype_web_extractor.py`. It runs over the sequence of node lists that successive
  counts of the region return.
- **`MergeExport`** (`merge.dfy`): the merge of `export_to_excel` in
  `skype_web_extractor.py`. The workbook is a sequence of records.
- **`WebExtractor`**, **`SkypeExtractor`** and **`PlainExtractor`**
  (`web_extractor.dfy`, `skype_extractor.dfy`, `plain_extractor.dfy`): the classes of
  `skype_web_extractor.py`, of `skype.py`, and of `base.py`/`skype5.py` (identical in
  this core). Their fields are `messages`, plus `uniqueMessages` where there is
  de-duplication. Their methods loop and update those fields. Each method is proved
  equal to the functions of `Accumulation`, `ScrollLoader` and `MergeExport`.

How the browser is represented:

- **Conversation list.** The wait for the list is an `Option` of a sequence of
  conversations. `None` or an empty sequence means the wait timed out; Selenium's
  "presence of all elements" never returns an empty list.
- **One conversation in `skype.py`, `base.py` and `skype5.py`** is a `Visit`: the
  message nodes (their labels) and an `Outcome`:
  - `Done`;
  - `FailedBefore`: the click or a wait raised;
  - `FailedAt(j)`: reading node `j` raised, which is how a node without an
    `aria-label` ends the conversation;
  - `FailedAfter`: the back button raised.

  In these three versions the message nodes are awaited with "presence of all
  elements", so an empty region is a timeout.
- **One conversation in `skype_web_extractor.py`** is a `ScrolledVisit`: the
  successive node lists the count loop sees, and an `Outcome`. There the wait needs
  one region node (none at all is `FailedBefore`); a later count that finds no
  message node reads no node and is no failure.
- **The clock** behind `Date d'extraction` is a function from the number of records
  already held to the string it returns.

## Model

`extract_message_info` is the same code in all four files (`skype_web_extractor.py:44-62`,
`skype.py:44-62`, `base.py:32-50`, `skype5.py:36-45`), and `base.py` and `skype5.py`
share their `extract_conversations`. A member that models the shared code has one row
below, citing one of the copies.

| member | source | states |
|---|---|---|
| Strings.IndexOf | skype_web_extractor.py:55 | the search finds the leftmost occurrence of the separator at or after the start, or reports that there is none |
| Strings.Split | skype_web_extractor.py:55 | splitting never gives an empty list of parts |
| Strings.JoinSplit | skype_web_extractor.py:55 | re-joining the parts of a split with the separator gives back the string |
| Strings.SplitJoin | skype_web_extractor.py:59 | parts without a borderless separator, joined with it, split back into the same parts |
| Strings.SplitPartsAvoidSep | skype_web_extractor.py:55 | no part of a split contains the separator |
| Strings.SplitSingleIff | skype_web_extractor.py:55 | a split gives one part exactly when the separator does not occur; that part is the whole string |
| Strings.SplitThreeIff | skype_web_extractor.py:57 | a split gives at least three parts exactly when the separator occurs twice without overlap |
| Strings.SplitAround | skype_web_extractor.py:55 | for a separator with no border, splitting `a + sep + b` gives the parts of `a` followed by the parts of `b` |
| Strings.JoinOuter | skype_web_extractor.py:59 | a join of three or more parts is the first part, the join of the middle parts and the last part, separated |
| Strings.JoinEndsWithLast | skype_web_extractor.py:60 | the last part is a suffix of the join |
| MessageParser.CommaIsBorderless | skype_web_extractor.py:55 | `", "` has no prefix that is also a suffix |
| MessageParser.ParseNoneIff | skype_web_extractor.py:55-62 | the parser fails exactly when the label lacks two separate `", "` |
| MessageParser.ParseRejectsUnseparated | base.py:43-50 | the empty label, and every label without `", "`, yields no fields |
| MessageParser.ParseRoundTrip | skype5.py:38-42 | sender, content and last part, re-joined with `", "`, give the label back |
| MessageParser.ParseFieldShapes | skype.py:58-60 | the sender holds no `", "`; the time holds neither `", "` nor `" à "` and is a suffix of the label |
| MessageParser.ParseFormat | skype_web_extractor.py:57-61 | a label built from a sender and a last field without `", "` parses back to them, whatever the content holds; the time is the last `" à "`-piece |
| MessageParser.ParseFormatInverse | skype_web_extractor.py:57-61 | parsing inverts formatting when the time also holds no `" à "` |
| MessageParser.ParseExample | skype_web_extractor.py:57-61 | `"Alice, Hello, there, envoyé à 14:32"` parses to `Alice`, `Hello, there`, `14:32` |
| Records.KeySetMembership | skype_web_extractor.py:115 | a key is in the key set exactly when some record of the list has it |
| Records.KeySetAppend | skype_web_extractor.py:119-125 | appending a record adds its key to the key set |
| Records.KeySetConcat | skype_web_extractor.py:160 | the key set of a concatenation is the union of the key sets |
| Records.NoDupKeysAppend | skype_web_extractor.py:118-125 | appending a record whose key is new keeps the keys distinct |
| Records.NoDupKeysCount | skype_web_extractor.py:118-125 | with distinct keys, there are as many keys as records |
| Records.KeyIgnoresExtractedAt | skype_web_extractor.py:115 | `Date d'extraction` is not part of the key |
| Records.KeyCollides | skype_web_extractor.py:115 | two different triples can have the same key, so the key is not injective |
| Accumulation.FailureLogSpec | skype_web_extractor.py:81 | the logged numbers count from 1, are exactly the failed conversations, and are increasing |
| Accumulation.AddUniqueConcat | skype_web_extractor.py:111-125 | handling the labels `a + b` is handling `a`, then `b` |
| Accumulation.AddUniqueExtends | skype_web_extractor.py:119-124 | the list only grows; earlier records stay unchanged and in place |
| Accumulation.AddUniqueKeys | skype_web_extractor.py:118-125 | the keys afterwards are the earlier keys plus those of every label with three non-empty fields |
| Accumulation.AddUniqueNoDup | skype_web_extractor.py:118-125 | the loop keeps the keys distinct |
| Accumulation.AddUniqueAppended | skype_web_extractor.py:118-125 | each appended record has three non-empty fields, a key not there before, the stamp of its position (the clock reading here, none in `skype.py`), and the fields of one of the labels |
| Accumulation.UniqueDropsDuplicates | skype.py:95-104 | a label read twice gives one record |
| Accumulation.CollidingMessageDropped | skype_web_extractor.py:115-118 | a later message whose key collides with an earlier one's is dropped, although its fields differ |
| Accumulation.AcceptFormat | skype_web_extractor.py:118 | a well-formed label with three non-empty fields is accepted with exactly those fields |
| Accumulation.AcceptRejectsUnseparated | base.py:81 | a label without two separate `", "` gives no record |
| Accumulation.AddAllConcat | base.py:79-86 | handling the labels `a + b` is handling `a`, then `b`: records follow node order |
| Accumulation.AddAllAppends | base.py:82-86 | the loop only appends after the records already held |
| Accumulation.AddAllMembers | skype5.py:69-76 | a record is produced exactly when some label parses to its three non-empty fields; it has no extraction date |
| Accumulation.PlainKeepsDuplicates | base.py:79-86 | a label read twice gives two equal records |
| Accumulation.RunUniqueFlat | skype_web_extractor.py:81-125 | the seen-set spans conversations: a walk is one de-duplicating loop over all labels in conversation order |
| Accumulation.RunAllFlat | base.py:66-86 | a walk without de-duplication is one loop over all labels in conversation order |
| Accumulation.PartialConversationPrefix | skype_web_extractor.py:111-134 | a conversation failing at node `j` keeps exactly the records of its first `j` nodes, a prefix of a full pass |
| Accumulation.SkipsSilentConversation | skype_web_extractor.py:132-134 | a conversation that failed before its first node leaves the walk as if it were absent |
| Accumulation.WalkKeepsEarlierRecords | skype5.py:83-85 | records appended before a failing conversation are kept by the rest of the walk |
| Accumulation.SecondOfThreeFails | skype.py:111-113 | when conversation 2 of 3 fails, 1 and 3 still contribute and the log holds just 2 |
| ScrollLoader.StallIndex | skype_web_extractor.py:101-104 | the first observation whose count does not exceed the previous one, all earlier ones having grown |
| ScrollLoader.LoadHistory | skype_web_extractor.py:92-108 | the loop stops at the first non-growing observation and reads its nodes; every earlier count grew; one scroll each, to the last node of a non-empty list |
| ScrollLoader.ScrollsAtMostNodes | skype_web_extractor.py:102-108 | every scroll loaded a node, so there are no more scrolls than nodes last seen |
| ScrollLoader.EmptyRegionNoScroll | skype_web_extractor.py:92-105 | an initial count of 0 stops the loop with no scroll |
| ScrollLoader.ThreeFiveFive | skype_web_extractor.py:92-108 | counts 3, 5, 5 give two scrolls and a five-node result |
| ScrollLoader.ShrinkStops | skype_web_extractor.py:101-105 | a shrinking count ends the loop, and the smaller list is read |
| MergeExport.MergedShape | skype_web_extractor.py:157-166 | the existing records come first; a run record follows exactly when its key is not already stored; an empty run writes back the existing records |
| MergeExport.UnseenMembers | skype_web_extractor.py:163-166 | a run record is appended exactly when its key is not in the existing key set |
| MergeExport.UnseenAppend | skype_web_extractor.py:163-166 | the filter keeps run order and works record by record |
| MergeExport.MergedKeys | skype_web_extractor.py:157-166 | the keys written are the stored keys and the run keys |
| MergeExport.MergedNoDup | skype_web_extractor.py:157-166 | distinct stored keys and distinct run keys give distinct written keys |
| MergeExport.MergedIdempotent | skype_web_extractor.py:157-166 | exporting the same run twice changes nothing the second time |
| MergeExport.MergedIntoEmpty | skype_web_extractor.py:146-151 | with no workbook yet, the run is written as it is |
| MergeExport.MergedTwice | skype_web_extractor.py:157-166 | two exports in a row are one export of both runs, when the second run shares no key with the records the first export added |
| MergeExport.RunDuplicatesBothAppended | skype_web_extractor.py:160-166 | the key set is not updated inside the loop, so a record with a new key present twice in the run is written twice |
| WebExtractor.SkypeWebExtractor.constructor | skype_web_extractor.py:20-26 | the list and the key set start empty |
| WebExtractor.SkypeWebExtractor.AddMessage | skype_web_extractor.py:112-125 | one node is one de-duplicating step; the key set stays the keys of the list and the keys stay distinct |
| WebExtractor.SkypeWebExtractor.ScrapeMessages | skype_web_extractor.py:111-125 | the node loop computes `AddUnique` and keeps the class invariant |
| WebExtractor.SkypeWebExtractor.VisitConversation | skype_web_extractor.py:82-134 | a conversation is scrolled to the end, then scraped as far as it got; it counts as failed unless it completed |
| WebExtractor.SkypeWebExtractor.ExtractConversations | skype_web_extractor.py:64-137 | no list is an error with nothing changed; otherwise the first `limit` conversations are visited in order, the failed ones logged by number from 1, giving `RunUnique` over them; the key set stays as large as the list |
| WebExtractor.SkypeWebExtractor.ExportToExcel | skype_web_extractor.py:153-166 | what is written back is `Merged(existing, messages)` |
| SkypeExtractor.SkypeWebExtractor.constructor | skype.py:20-26 | the list and the key set start empty |
| SkypeExtractor.SkypeWebExtractor.AddMessage | skype.py:92-104 | one node is one de-duplicating step with no extraction date; the class invariant holds |
| SkypeExtractor.SkypeWebExtractor.ScrapeMessages | skype.py:91-104 | the node loop computes `AddUnique` and keeps the class invariant |
| SkypeExtractor.SkypeWebExtractor.VisitConversation | skype.py:82-113 | an empty region is a timeout; otherwise the nodes are scraped as far as it got; it counts as failed unless it completed |
| SkypeExtractor.SkypeWebExtractor.ExtractConversations | skype.py:64-116 | no list is an error with nothing changed; otherwise the first `limit` conversations are visited in order, the failed ones logged by number from 1, giving `RunUnique` over them |
| PlainExtractor.SkypeWebExtractor.constructor | base.py:14-19 | the list starts empty |
| PlainExtractor.SkypeWebExtractor.AddMessage | base.py:80-86 | one node appends its record exactly when its three fields are non-empty |
| PlainExtractor.SkypeWebExtractor.ScrapeMessages | base.py:79-86 | the node loop computes `AddAll` |
| PlainExtractor.SkypeWebExtractor.VisitConversation | base.py:67-95 | an empty region is a timeout; otherwise the nodes are scraped as far as it got; it counts as failed unless it completed |
| PlainExtractor.SkypeWebExtractor.ExtractConversations | base.py:52-95 | no list propagates the error with nothing changed; otherwise every conversation is visited in order, failures reported by number from 1, giving `RunAll` |

## Left out

- Browser calls are left out. That covers starting Chrome, clicks, `WebDriverWait` and its 30-second timeouts, `find_element(s)`, scrolling by script and `quit`. Their results are inputs: the conversation list, the node labels, the node lists seen by the count loop, and where each conversation stopped.
- `time.sleep` waits are left out: they do not change what is computed.
- `datetime.now()` is left out. The extraction date is a clock function passed in. File names built from the date are not modelled.
- Login is left out: the page load, the `input()` prompts and the credentials typed in `skype5.py`.
- pandas is left out: reading and writing Excel and CSV, with its type coercion. The workbook is the sequence of records it holds. A missing file (`FileNotFoundError`) is the empty sequence.
- Logging, `print` and `tqdm` are left out. The error log is modelled only as the list of failed conversation numbers.
- A node whose `get_attribute` returns `None` is not a string label. It makes `split` raise, which the per-conversation handler absorbs. It is modelled as `FailedAt` at that node.
- A negative `limit` (Python slice semantics) is left out: `limit` is a `nat`.
- The stateless exports are left out: `export_to_excel` in `skype.py` and `export_to_csv` in `base.py`/`skype5.py` write `messages` unchanged to a file named from the clock.
- ScrollLoader.LoadHistory: requires that the sequence of observations contains one that does not grow. A browser that kept loading new nodes forever would keep the original loop running. The model takes the finite history of counts as given.
- WebExtractor.SkypeWebExtractor.ExtractConversations: requires the same of each of the first `limit` conversations, the ones it opens, unless it fails before scrolling (`Settles`).
- PlainExtractor.SkypeWebExtractor.ExtractConversations: in `base.py` and `skype5.py` the list wait raises out of the method. The model returns `ListNotFound` for it, as for the re-raised error of the other two versions.
- The key is not injective (see `Records.KeyCollides`). No property here relies on keys telling different messages apart; `Accumulation.CollidingMessageDropped` shows the resulting loss.
