# Verification of the algorithmic core

A Dafny model of the parts of the repository that hold real algorithms and state, with proofs of
what they compute and keep.

- **CMarkup** (`demos/markup/Markup.cpp`) keeps an XML text and, beside it, an index: an array of
  records with offset, lengths, parent, child and sibling links. The model is a class with the text,
  the index and the current position as fields that every edit changes in place. A ghost `Forest`
  gives the document the index stands for: a list of sibling elements with the text between them.
  `Agree` says that links, sibling rings and offsets of the index are those of the forest; `Valid`
  adds that the text is the forest's, that tags are well formed, that the deleted list holds the
  records the forest does not use, and that the position is in the document. Parsing is tied to
  `Document`, which reads the forest off the nodes of a text; editing is tied to a planned forest;
  and reading the text of a forest again is proved to give that forest exactly when every piece of
  text between its tags is read as text, which edits keep up to one case at the front of the text.
- **Sweep line** (`dsaax/sweep_line/sweep_line.cpp`): the segment tree with permanent cover counts,
  and the event loop whose sum is the number of unit cells covered.
- **WaitGroup** (`utils/waitgroup/wait_group.cpp`): a step relation over any number of threads, with
  the decrement, the check, the lock, the notification, the predicate test and the falling asleep as
  separate steps.
- **Smaller cores**: the trie of `test.cpp`, Rabin-Karp against the search with backtracking, the
  rolling hash, the ring buffer and Base64.

The CMarkup build modelled is the STL build for UTF-8 with one-byte characters, without files. Texts
hold no zero character, as C strings do not; names given to edits are XML names.

## Files

| files | content |
|---|---|
| `ElemForest`, `ForestEdit`, `ForestGraft`, `SiblingLinks`, `Agreement` | records, forests, and what it means that they agree |
| `Adjust`, `Release` | the walks of x_Adjust and x_ReleaseSubDoc |
| `Tags`, `Attribs`, `Valueless`, `Nodes`, `Token` | tags, the attribute scan and the tokenizer state machine |
| `NodeEnds`, `TagEnds` | where each kind of node ends, told without the state machine |
| `Insertion`, `Removal`, `DocText`, `EditPlan`, `EditFacts`, `EditKeeps`, `EditFrame`, `Adding`, `Placing`, `Changing`, `Removing`, `Retagging`, `EditText` | what each edit does to forest, text and index |
| `Parsing`, `OpenElements`, `ParseRings`, `ParseSteps`, `Reading`, `Promotion` | the stack parser, the document of a text, and which texts break the sibling rings |
| `NodesAlone`, `TagNodes`, `CleanText`, `CleanNodes`, `Rereading`, `ReadsBack`, `RereadEdits` | reading a text again, edited or not |
| `Escape`, `References`, `Utf`, `Unicode`, `CData`, `ElementData`, `MixedContent`, `StoredData` | codecs, what they mean, and reading back what was stored |
| `Markup`, `SavedPos`, `Restoring`, `ElemPosTree`, `Consequences` | the class, saved positions, the record array, consequences |
| `SweepLine`, `UnionArea`, `WaitGroup`, `Trie`, `StringSearch`, `RingBuffer`, `Base64`, `Base64Numbers` | the other cores |

## Findings

Where the code does not meet what it is for, the model keeps the code and proves exactly when it does.

- AddElem with MNF_WITHNOLINES between two tags with nothing in between (`demos/markup/Markup.cpp:4782-4783`,
  `4825`): the line end is put in all the same, but the record's start does not count it. `Markup.CMarkup.AddElem`
  ensures that index and text agree afterwards if and only if this is not the case, `Placing.NoLinesMisses` gives
  an input, and by `StoredData.AddThenGet` the value then never reads back unless it is empty.
- Elements without end tag (`demos/markup/Markup.cpp:4132-4165`): their children are moved up behind them, and the
  first one keeps its first flag although it follows a sibling now. `Markup.CMarkup.ParseDoc` keeps child, next and
  parent links and all offsets right for every text, and the sibling rings are whole if and only if no element
  without end tag has a next link, and if and only if not `Promotes(doc)`: a check of the text alone, that no element
  without end tag has an element in it before the end tag that closes over it, or the end of the text. By
  `Promotion.PromotionExamples` it fails for `<a><b><c/></a>` and holds for `<a><b></a>`.
- Add with a negative argument (`utils/waitgroup/wait_group.cpp:14`): it can bring the counter to zero without
  waking anyone. `WaitGroup.AddSafeIffNonNegative` states that waiters are safe if and only if no Add may have a
  negative argument.
- A nameless instruction `<?>` (`demos/markup/Markup.cpp:2323-2619`) ends at its bracket everywhere but at the front
  of the text, where it goes on to the next `?>` or is bad (`CleanNodes.BareElsewhere`, `CleanNodes.BareAtFront`). A
  node reads the same after a move if both places or neither are the front (`CleanNodes.RunAlike`), and otherwise a
  nameless instruction does not (`CleanNodes.BareDiffers`). `ReadsBack.ReadsBackIff` says for every document when its
  text reads back; by `RereadEdits.RunRereads` it does after any run of edits if the text does not begin with a
  nameless instruction, and otherwise if and only if the gap at its front is read as text. `RereadEdits.NamelessMoves`
  is a run of a removal and an insertion after which it does not.
- SetAttrib on an attribute without value (`demos/markup/Markup.cpp:1281-1289`, `4311-4321`): FindAttrib takes its name
  for its value, so the value replaces the name. `Valueless.SetsItem` states that the text edit sets the attribute if
  and only if it has a value or is not there, and `Valueless.FlagLost` that `<p checked>` becomes `<p "v">`.
- RabinKarp (`dsaax/rabin_karp/rk.cpp:18-44`): the hash of a pattern with characters above 127, negative as C chars,
  can be negative, which the hash of a window behind the front never is. `StringSearch.RabinKarp` ensures what is found
  for all one-byte characters, by `StringSearch.FoundIffSigned` every occurrence if and only if the hash of the pattern
  is not negative or there is none behind the front, and `StringSearch.NegativeMissed` gives an input.

## Model

| member | source | states |
|---|---|---|
| `UnionArea.Area` | dsaax/sweep_line/sweep_line.cpp:111-146 | for every list of upright integer rectangles the accumulated total is the number of unit cells that at least one of them covers |
| `UnionArea.SweepStep` | dsaax/sweep_line/sweep_line.cpp:136-143 | the root length times the height to the next event is exactly the number of covered cells between the two heights |
| `UnionArea.LenIsMeasure` | dsaax/sweep_line/sweep_line.cpp:62-77 | the length kept at a node is the number of unit columns that its subtree covers |
| `UnionArea.SumIsActiveCount` | dsaax/sweep_line/sweep_line.cpp:19-20 | whatever the order among events of equal height, the cover counts over an interval total the active rectangles over it |
| `SweepLine.Update` | dsaax/sweep_line/sweep_line.cpp:81-110 | after the update the tree represents the events so far and the new one, and no other cell has changed |
| `SweepLine.Build` | dsaax/sweep_line/sweep_line.cpp:45-59 | the built tree represents no events |
| `SweepLine.DeclaredTreeFits` | dsaax/sweep_line/sweep_line.cpp:40 | the declared array is large enough for the tree over m elementary intervals if and only if m is at most 2^18 + 3 |
| `WaitGroup.ReachableInv` | utils/waitgroup/wait_group.cpp:14-27 | in every state reached by any interleaving with non-negative Add, the mutex has one holder and no wake-up is lost |
| `WaitGroup.AddSafeIffNonNegative` | utils/waitgroup/wait_group.cpp:14 | no reachable state has a lost wake-up if and only if Add is only called with non-negative arguments |
| `WaitGroup.NegativeAddLosesWakeUp` | utils/waitgroup/wait_group.cpp:14-26 | for every negative argument there is a run that loses the wake-up |
| `WaitGroup.QuiescentMeansReturned` | utils/waitgroup/wait_group.cpp:24-27 | when no thread can go on inside its call, every call has returned but for waiters on a positive counter |
| `WaitGroup.EveryCallReturns` | utils/waitgroup/wait_group.cpp:14-27 | once the counter has run out and no new call is made, at most five steps a thread are taken, and a run that cannot go on leaves every call returned |
| `WaitGroup.CounterLaw` | utils/waitgroup/wait_group.cpp:10-17 | in every run and state the counter is the initial count plus what Add has added minus what Done has taken |
| `WaitGroup.WaitWaits` | utils/waitgroup/wait_group.cpp:24-27 | in every run, whatever is added, a call of Wait returns only after the counter has been zero or less during the call |
| `WaitGroup.SleepsOnPositive` | utils/waitgroup/wait_group.cpp:26 | a waiter falls asleep only in a step that sees the counter above zero |
| `WaitGroup.DoneNotifies` | utils/waitgroup/wait_group.cpp:16-22 | Done reads the counter once: if it has run out, every sleeper is woken before Done returns, and otherwise nothing else is touched |
| `Markup.CMarkup.constructor` | demos/markup/Markup.cpp:2651-2667 | a document made from a text stands for what the text says, and is valid if and only if every element is ended and has matching tags |
| `Markup.CMarkup.ParseDoc` | demos/markup/Markup.cpp:3991-4024 | for every text the records are those of `Document(doc)`, with right links and offsets; the sibling rings are whole, and so all agrees, if and only if the text does not promote children; the result is the plain well-formedness check |
| `Markup.CMarkup.ParseElem` | demos/markup/Markup.cpp:4026-4174 | the stack parser finds the document of the text, whether or not it is well formed |
| `Markup.CMarkup.Unwind` | demos/markup/Markup.cpp:4128-4165 | elements without end tag leave the stack, their children becoming their next siblings, and the text read is still covered |
| `ParseRings.RungDone` | demos/markup/Markup.cpp:4132-4165 | after parsing the sibling rings are whole if and only if no element without end tag has a next sibling |
| `ParseRings.RaisedPromoted` | demos/markup/Markup.cpp:4132-4165 | taking an element without end tag off the stack leaves such an element exactly if there was one or it has children |
| `Promotion.PromotesOn` | demos/markup/Markup.cpp:4087-4165 | node by node, the check of the text says what taking elements off the stack does |
| `Promotion.WellFormedKeeps` | demos/markup/Markup.cpp:4087-4165 | a well-formed text promotes no children |
| `Promotion.PromotionExamples` | demos/markup/Markup.cpp:4132-4165 | a text that promotes a child, and one whose element without end tag has none |
| `Markup.CMarkup.FindMatch` | demos/markup/Markup.cpp:4095-4103 | an end tag is matched with the innermost open element of its name, or with none |
| `Reading.DocumentMarks` | demos/markup/Markup.cpp:4045-4174 | the elements of `Document(s)` are exactly the element nodes of s, numbered in order, at their places; its end tags are exactly those that the check of names lets end an open element, and each belongs to that element; an element without end tag has no content; the text is s |
| `Nodes.NodesTile` | demos/markup/Markup.cpp:2323-2619 | repeated calls cut the text into adjacent non-empty nodes and report its end after at most its length plus one calls |
| `Nodes.RunProgress` | demos/markup/Markup.cpp:2323-2619 | a call reports the end exactly at the end, and otherwise takes a non-empty node from where the last one ended |
| `NodesAlone.NodeAlone` | demos/markup/Markup.cpp:2323-2619 | a node at a place depends on the text alone, not on what was read before it |
| `Nodes.NameInside` | demos/markup/Markup.cpp:2323-2619 | the name of a start tag or end tag lies inside it |
| `TagEnds.ElementNode` | demos/markup/Markup.cpp:2437-2512 | for every text: a start tag is one node up to the first bracket outside of quoted values, bad if there is none; its name reaches up to whitespace, slash or bracket; it is empty exactly if a slash that does not belong to an unquoted value is in front of the bracket |
| `TagEnds.BadNode` | demos/markup/Markup.cpp:2457-2588 | what opens no node is bad up to the next tag, or to the bracket that would close a tag |
| `NodeEnds.EndTagNode` | demos/markup/Markup.cpp:2437-2544 | an end tag ends at its first bracket, quoted or not |
| `NodeEnds.CommentNode` | demos/markup/Markup.cpp:2457-2578 | a comment ends with the first `-->` behind its opening bracket and mark, and is bad to the end of the text without one |
| `NodeEnds.SectionNode` | demos/markup/Markup.cpp:2457-2586 | so does a CDATA section with `]]>` |
| `NodeEnds.InstructionNode` | demos/markup/Markup.cpp:2457-2548 | so does an instruction with `?>`; only at the front of the text its own question mark does not count |
| `NodeEnds.TextNode` | demos/markup/Markup.cpp:2483-2613 | whitespace up to a tag or the end is a node; other text ends in front of the next tag, or behind a closing bracket that is not its first character |
| `NodeEnds.DocTypeNode` | demos/markup/Markup.cpp:2514-2600 | a document type ends with the first bracket outside of the comments, instructions and declarations nested in it |
| `Token.TokenPos.ParseNode` | demos/markup/Markup.cpp:2323-2619 | the loop with its flags computes the node of the state machine |
| `Token.TokenPos.FindAttrib` | demos/markup/Markup.cpp:1158-1284 | the scan returns what the attribute lookup specifies, position and quotes included |
| `Attribs.LookupInTag` | demos/markup/Markup.cpp:1158-1284 | in a well-formed tag the first attribute of that name is found at its value, or the place behind the last attribute |
| `Attribs.MatchesWord` | demos/markup/Markup.cpp:1140-1145 | a name given as part of a path is matched up to the end of its word |
| `Attribs.SetsInTag` | demos/markup/Markup.cpp:4290-4370 | the text edit of SetAttrib yields the tag with that attribute set and every other one as it was |
| `Valueless.SearchItems` | demos/markup/Markup.cpp:1158-1284 | in a tag with unquoted and valueless attributes too, the first one of the name is found at its value, or at its name if it has none |
| `Valueless.SetsItem` | demos/markup/Markup.cpp:4290-4370 | the text edit of SetAttrib sets the attribute, giving an unquoted value quotes, if and only if it has a value or is not there; a valueless one loses its name |
| `Valueless.FlagLost` | demos/markup/Markup.cpp:1281-1289 | an input for which the name is lost |
| `Attribs.SetThenRead` | demos/markup/Markup.cpp:4266-4280 | an attribute set reads back as the value given |
| `Attribs.OthersKept` | demos/markup/Markup.cpp:4290-4370 | every other attribute keeps its first value |
| `AdjustWalk.TourEffect` | demos/markup/Markup.cpp:4656-4714 | the walk moves exactly the elements that follow, lengthens exactly the proper ancestors and the virtual parent, and changes nothing else |
| `AdjustWalk.TourChain` | demos/markup/Markup.cpp:4656-4714 | following the links as the loop does visits exactly that tour and ends at the virtual parent |
| `Markup.CMarkup.Adjust` | demos/markup/Markup.cpp:4656-4714 | the loop terminates with the index adjusted so |
| `ReleaseWalk.TopEnters` | demos/markup/Markup.cpp:5266-5292 | descending from the top visits the subtree in post-order although the links followed are overwritten |
| `ReleaseWalk.ReleaseAllList` | demos/markup/Markup.cpp:5257-5264 | the released records form the deleted list, last one first, in front of the old list |
| `Markup.CMarkup.ReleaseSubDoc` | demos/markup/Markup.cpp:5266-5292 | exactly the records of the subtree are deleted, each once, and the old next sibling is returned |
| `Markup.CMarkup.LinkElem` | demos/markup/Markup.cpp:5146-5200 | linking refines insertion into the list of children: links, ring and first flag are those of the new list |
| `Markup.CMarkup.UnlinkElem` | demos/markup/Markup.cpp:5202-5232 | unlinking refines removal from the list of children, and returns the previous sibling |
| `Insertion.InsertionAgrees` | demos/markup/Markup.cpp:4716-4852 | after text, links and offsets are changed for a new element, index and new document agree |
| `Removal.RemovalAgrees` | demos/markup/Markup.cpp:5131-5144 | after an element is cut out and its records are released, index and remaining document agree |
| `Agreement.InPlace` | demos/markup/Markup.cpp:4444-4488 | after one element's tags or content change and the rest is adjusted, index and new document agree |
| `Placing.PlanSplit` | demos/markup/Markup.cpp:4727-4814 | an element put into an empty tag splits it: the text edit, and where the new element stands |
| `Placing.PlanFirst` | demos/markup/Markup.cpp:4741-4827 | an element put between two tags: the text edit, and where it stands, the line end included |
| `Placing.PlanPlain` | demos/markup/Markup.cpp:4721-4776 | an element put before or after a sibling: the text edit, and where it stands |
| `Placing.NoLinesMisses` | demos/markup/Markup.cpp:4782-4825 | an input for which the recorded start is short by a line end |
| `Markup.CMarkup.InsertNew` | demos/markup/Markup.cpp:4716-4852 | the text becomes that of the planned document, an empty tag being split into two |
| `Markup.CMarkup.AddElem` | demos/markup/Markup.cpp:4863-4978 | the document becomes the planned one and the position is the new element; index and text agree if and only if no line end is missed |
| `Markup.CMarkup.AddChildElem` | demos/markup/Markup.cpp:4863-4978 | the same below the current element; without one it fails and changes nothing |
| `EditText.AdditionText` | demos/markup/Markup.cpp:4716-4852 | the new text is the old one with the element put in at one place, told from the record beside it: behind a sibling or in front of an end tag, passing whitespace only up to a tag or the end; with the line ends there are |
| `EditText.AdditionOrder` | demos/markup/Markup.cpp:4863-4978 | the new element is right before or right behind the sibling it is put beside, or first or last without one, and no other sibling moves |
| `StoredData.AddedTags` | demos/markup/Markup.cpp:4895-4925 | it has the name given, and an empty tag exactly if there is no value |
| `Markup.CMarkup.SetData` | demos/markup/Markup.cpp:4444-4488 | the content of a childless element is replaced and all agrees; an element with children is refused unchanged |
| `EditText.RefillText` | demos/markup/Markup.cpp:4444-4488 | the new text is the old one with the value between the tags; an empty tag loses its slash and gets an end tag of its name |
| `Markup.CMarkup.SetAttrib` | demos/markup/Markup.cpp:4290-4370 | the start tag is rewritten in place, all agrees, and the value reads back, references kept on request as what they mean |
| `Markup.CMarkup.GetAttrib` | demos/markup/Markup.cpp:4266-4280 | returns the unescaped value that the lookup finds, the empty text if there is none |
| `Markup.CMarkup.GetTagName` | demos/markup/Markup.cpp:4254-4264 | returns the name in the element's start tag |
| `Markup.CMarkup.GetData` | demos/markup/Markup.cpp:4490-4580 | returns `DataOf` the element: its content read node by node, or unescaped if it holds no tag |
| `Markup.CMarkup.RemoveElem` | demos/markup/Markup.cpp:5131-5144 | the element and the whitespace behind it go, its records are deleted, all agrees, and the position is the previous sibling |
| `Markup.CMarkup.RemoveChildElem` | demos/markup/Markup.cpp:3883-3895 | the same for the current child |
| `EditText.RemovalText` | demos/markup/Markup.cpp:5131-5144 | the new text is the old one without the range from the element's start to the next tag or the end, or to the element's end if other text follows; what goes behind the element is whitespace; the element goes out of its list, and the one in front of it is the new position |
| `EditText.CutToTag` | demos/markup/Markup.cpp:1117 | there is exactly one place that whitespace reaches so, and WhitespaceToTag finds it |
| `Tags.TagCutIs` | demos/markup/Markup.cpp:1117-1128 | leading whitespace is passed if a tag or nothing follows, and none of it in front of other text |
| `Markup.CMarkup.FindElem` | demos/markup/Markup.cpp:2851-2868 | goes to the next sibling in the document, or the first child of the parent position, if there is one |
| `EditText.NextInOrder` | demos/markup/Markup.cpp:2851-2868 | that is the element behind the current one in its list, or the first, or none |
| `Markup.CMarkup.IntoElem` | demos/markup/Markup.cpp:3680-3689 | the current element becomes the parent position and its current child the position |
| `Markup.CMarkup.OutOfElem` | demos/markup/Markup.cpp:3691-3700 | the parent position becomes the current element and the current element its child position |
| `Consequences.NestedOrApart` | demos/markup/Markup.cpp:4045-4174 | the recorded spans of any two elements are nested, a descendant inside its ancestor's content, or apart in the order of the document |
| `Consequences.RecordsDelimit` | demos/markup/Markup.cpp:4045-4090 | for every text parsed, each recorded span begins with the element's start tag and ends with its end tag |
| `Consequences.InsertionLeavesText` | demos/markup/Markup.cpp:4716-4852 | an element that is no ancestor of the insertion has exactly its old text |
| `Consequences.RemovalLeavesText` | demos/markup/Markup.cpp:5131-5144 | the same for a removal |
| `Consequences.ChangeLeavesText` | demos/markup/Markup.cpp:4444-4488 | the same for a change of tags or content |
| `TagNodes.StartTagNode` | demos/markup/Markup.cpp:2323-2619 | a well-formed start tag, quoted brackets and all, is cut off as one element node with its name |
| `TagNodes.EndTagNode` | demos/markup/Markup.cpp:2323-2619 | an end tag is cut off as one node with its name |
| `CleanNodes.RunAlike` | demos/markup/Markup.cpp:2323-2619 | a comment, instruction, CDATA section or document type reads the same wherever it is moved; a nameless instruction wherever both places or neither are the front |
| `CleanNodes.BareDiffers` | demos/markup/Markup.cpp:2323-2619 | a nameless instruction is another node at the front of a text than elsewhere |
| `CleanNodes.BareAtFront` | demos/markup/Markup.cpp:2323-2619 | at the front it ends at the next `?>` behind it, or is bad up to the end of the text |
| `CleanNodes.ParsedClean` | demos/markup/Markup.cpp:3991-4174 | between the tags of a well-formed text that does not begin with a nameless instruction there is only text that never reads as a tag |
| `Rereading.ReadAgain` | demos/markup/Markup.cpp:3991-4174 | a text whose gaps are read as text stands for the document up to record numbers; if they are plain too, it is well formed if and only if there is one root |
| `ReadsBack.ReadsBackIff` | demos/markup/Markup.cpp:3991-4174 | for every document with matching tags: parsing its text finds it if and only if each gap, where it stands, is read without a start tag, without an end tag that ends an open element, and without running into the next tag |
| `ReadsBack.ReadsFromFront` | demos/markup/Markup.cpp:3991-4174 | of clean gaps only the one at the front matters, and only if it begins with a nameless instruction |
| `RereadEdits.RunRereads` | demos/markup/Markup.cpp:4290-5144 | after any run of AddElem, AddChildElem, SetData, SetAttrib, RemoveElem and RemoveChildElem, parsing the text finds the document of the index if and only if the front is read as text; it is unless the text begins with a nameless instruction |
| `RereadEdits.ParsedThenEdited` | demos/markup/Markup.cpp:3991-5144 | for any run of edits that begins with a parsed well-formed text: the text reads back if and only if its gaps are read as text; it does if neither the first nor the last text begins with a nameless instruction |
| `RereadEdits.NamelessMoves` | demos/markup/Markup.cpp:2323-2619 | a run that brings a nameless instruction to the front, after which the text is one bad node |
| `RereadEdits.Reparse` | demos/markup/Markup.cpp:2669-2677 | giving a document its own text anew keeps text, document and every offset and length, and changes only record numbers, if and only if its gaps are read as text |
| `RereadEdits.SameOffsets` | demos/markup/Markup.cpp:4045-4090 | two indexes of the same document have the same offsets, record by record in the order of the text |
| `Escape.EscapeText` | demos/markup/Markup.cpp:2890-2964 | the loop computes the escaped form, existing references kept if asked for |
| `Escape.UnescapeText` | demos/markup/Markup.cpp:3039-3189 | the loop computes the unescaped form, unknown references left as they are |
| `References.ReadsDecimalReference` | demos/markup/Markup.cpp:3082-3092 | a decimal reference of up to eight digits is the character whose number its digits have by place |
| `References.ReadsHexReference` | demos/markup/Markup.cpp:3082-3092 | so is a hexadecimal one of up to seven digits of either case |
| `References.NumeralsRead` | demos/markup/Markup.cpp:3039-3189 | a value of such references is read as UTF-8 of the characters with these numbers, as a strict reader confirms |
| `References.ReadsNamedReference` | demos/markup/Markup.cpp:3094-3116 | a named reference, in any case, is the character the table has for it, and is left as it is if there is none |
| `References.LeftAlone` | demos/markup/Markup.cpp:3064-3080 | an ampersand without a semicolon among the next ten characters is left as it is |
| `References.ReferenceFound` | demos/markup/Markup.cpp:2916-2945 | the references that escaping keeps are exactly an ampersand, a first character, more characters of a name, and a semicolon |
| `References.UnescapeKept` | demos/markup/Markup.cpp:3039-3189 | a value escaped with its references kept reads back with each as what it stands for and all else as it was |
| `Escape.UnescapeEscaped` | demos/markup/Markup.cpp:3039-3189 | escaped text reads back as the original, wherever it stands and whatever follows |
| `Escape.EscapedIsInert` | demos/markup/Markup.cpp:2890-2964 | escaped text holds no bracket, and no quote if quotes are escaped |
| `Escape.EscapedSame` | demos/markup/Markup.cpp:2890-2964 | a text is written as it is exactly if it has no ampersand, bracket or, where asked for, quote |
| `CData.EncodeCDATASection` | demos/markup/Markup.cpp:4418-4434 | every end delimiter in the value is split between two sections |
| `ElementData.SectionNode` | demos/markup/Markup.cpp:2323-2619 | a CDATA section without end delimiter inside is one node around its text |
| `ElementData.StoredReads` | demos/markup/Markup.cpp:4490-4580 | a value stored escaped or in sections is the data of its content |
| `MixedContent.MixedReads` | demos/markup/Markup.cpp:4558-4570 | mixed content reads part by part: character data unescaped, sections as they are, and nothing for whitespace between tags, comments and instructions |
| `MixedContent.ElementReads` | demos/markup/Markup.cpp:4490-4580 | so GetData reads an element with such content; content that is one run of characters is unescaped whole, be it only whitespace |
| `StoredData.AddThenGet` | demos/markup/Markup.cpp:4863-4978 | a value added reads back, as it was or with its kept references as what they mean, if and only if it is empty or no line end is missed |
| `StoredData.AddedUnread` | demos/markup/Markup.cpp:4782-4825 | a value that does not read back |
| `StoredData.SetThenGet` | demos/markup/Markup.cpp:4444-4488 | a value set reads back in the same way |
| `SavedPositions.SavedPosMap.SavePos` | demos/markup/Markup.cpp:3735-3820 | the buckets, each a prefix of used entries with one last marker, represent the map with the name set to the place |
| `SavedPositions.SavedPosMap.RestorePos` | demos/markup/Markup.cpp:3822-3856 | returns the place last saved under the name, or nothing |
| `SavedPositions.SavedPosMap.CheckSavedPos` | demos/markup/Markup.cpp:5294-5339 | afterwards the buckets represent the map without the places on deleted elements |
| `Restoring.SaveThenRestore` | demos/markup/Markup.cpp:3735-3856 | a position saved stands in the document and is restored exactly |
| `Restoring.RestorePos` | demos/markup/Markup.cpp:3822-3856 | succeeds exactly for the names saved, and the position is then in the document |
| `Restoring.RemoveElem` | demos/markup/Markup.cpp:5131-5144 | removing an element forgets exactly the names saved on elements that went, and the others can still be restored |
| `Restoring.RemoveChildElem` | demos/markup/Markup.cpp:3883-3895 | the same for removing the current child |
| `Restoring.AddedStand` | demos/markup/Markup.cpp:4863-4978 | after AddElem and AddChildElem every saved position still stands in the document |
| `Restoring.RefilledStand` | demos/markup/Markup.cpp:4444-4488 | so it does after SetData |
| `Restoring.RetaggedStand` | demos/markup/Markup.cpp:4290-4370 | and after SetAttrib |
| `ElemPosTree.Tree.GrowElemPosTree` | demos/markup/Markup.cpp:1000-1057 | the array grows by at most one segment, every old cell keeps its content, and only the last segment in use is copied |
| `ElemPosTree.Tree.AllocElemPos` | demos/markup/Markup.cpp:3981-3989 | it has grown if the request was larger, and old cells keep their content |
| `Utf.RoundTrip` | demos/markup/Markup.cpp:3352-3417 | any sequence of non-zero Unicode scalar values survives UTF-8 to UTF-16 and back |
| `Utf.UTF16To8` | demos/markup/Markup.cpp:3352-3383 | the counting pass predicts what the writing pass writes; with too little room the longest prefix of whole characters is written |
| `Utf.UTF8To16` | demos/markup/Markup.cpp:3385-3417 | the same count with and without a destination, and the units written encode the code points read |
| `Utf.FittingIsLongest` | demos/markup/Markup.cpp:3306-3350 | no longer prefix of whole characters fits |
| `Unicode.Units` | demos/markup/Markup.cpp:3265-3288 | a scalar value is written as one unit, or as a high and a low half that give it back |
| `Unicode.Bytes` | demos/markup/Markup.cpp:3306-3350 | a scalar value is written as one to four bytes, by its size, whose six-bit parts give it back |
| `Unicode.Written16` | demos/markup/Markup.cpp:3265-3288 | a strict reader of UTF-16 reads every sequence of scalar values off its units |
| `Unicode.Reads16` | demos/markup/Markup.cpp:3290-3304 | decoding agrees with the strict reader wherever that does not refuse the units |
| `Unicode.Reads8` | demos/markup/Markup.cpp:3227-3263 | so it does for bytes |
| `Unicode.BadSequence` | demos/markup/Markup.cpp:3227-3263 | a byte that asks for more bytes than follow is a character of its own, not valid |
| `Unicode.Converted` | demos/markup/Markup.cpp:3352-3417 | strict text becomes strict text of the same characters in either direction |
| `Unicode.Buffer16` | demos/markup/Markup.cpp:3385-3417 | what UTF8To16 leaves in the buffer reads strictly as the characters of the bytes |
| `Unicode.Buffer8` | demos/markup/Markup.cpp:3352-3383 | what UTF16To8 leaves there reads strictly as the characters that fit |
| `StringSearch.RabinKarp` | dsaax/rabin_karp/rk.cpp:9-45 | reports exactly the occurrences, in increasing order, if the hash of the pattern is not negative, and otherwise only one at the front |
| `StringSearch.FoundIffSigned` | dsaax/rabin_karp/rk.cpp:18-44 | those are all occurrences if and only if the hash of the pattern is not negative or none is behind the front; for ASCII patterns they always are |
| `StringSearch.NegativeMissed` | dsaax/rabin_karp/rk.cpp:18-44 | an occurrence that is not reported |
| `StringSearch.SignedIsHash` | dsaax/rabin_karp/rk.cpp:18-23 | the hash computed with C remainders is the value modulo 101 but for its sign |
| `StringSearch.OccurrencesAre` | dsaax/rabin_karp/rk.cpp:25-44 | those are exactly the places where the pattern occurs, ascending |
| `StringSearch.HashRolls` | dsaax/rabin_karp/rk.cpp:31-41 | the rolled hash is the direct hash of the next window |
| `StringSearch.BruteForce` | algorithms/str_search/main.cpp:11-30 | returns the first occurrence, -1 if there is none |
| `StringSearch.RabinHash.RollHash` | dsaax/rabin_karp/rk1.cpp:31-34 | equals the initial hash of the shifted window |
| `TrieWords.FindsPrefixes` | test.cpp:48-60 | a subtrie is found exactly for the empty word and the prefixes of inserted words |
| `TrieWords.PrintsLongest` | test.cpp:30-41 | printing shows exactly the inserted words, or the empty one, that no other extends, once each in dictionary order |
| `TrieWords.Printer.Show` | test.cpp:30-41 | the accumulator ends as it was, and every line has it in front |
| `TrieWords.Trie.Insert` | test.cpp:16-28 | afterwards the prefixes of the word are found besides those found before |
| `RingQueue.CircularBuffer.Put` | dsaax/ringbuffer/main.cpp:83-97 | appends to the queue, dropping the oldest item of a full one |
| `RingQueue.CircularBuffer.Get` | dsaax/ringbuffer/main.cpp:99-115 | takes the oldest item, the default value of an empty queue |
| `RingQueue.CircularBuffer.Size` | dsaax/ringbuffer/main.cpp:63-80 | the length of the queue |
| `RingQueue.HoldsTheNewest` | dsaax/ringbuffer/main.cpp:83-97 | whatever is put in, the newest items that fit are held in order |
| `Base64.Encode` | demos/openssl/main.cpp:22-63 | the loop over three-byte groups computes the encoding |
| `Base64.Decode` | demos/openssl/main.cpp:66-103 | the loop computes the decoding, in which no filler for missing characters takes part |
| `Base64.EncodedShape` | demos/openssl/main.cpp:22-63 | four characters for every three bytes, padding only at the end |
| `Base64.DecodeEncode` | demos/openssl/main.cpp:22-103 | decoding an encoding gives every byte string back |
| `Base64.Alphabet` | demos/openssl/main.cpp:12-15 | the 64 characters in their order |
| `Base64Numbers.EncodedNumber` | demos/openssl/main.cpp:22-63 | read in base 64, the encoding is the number the bytes are in base 256, filled up with zero bits |
| `Base64Numbers.DecodedNumber` | demos/openssl/main.cpp:66-103 | read in base 256, the decoding of any characters of the alphabet is their number in base 64 without the bits that make no whole byte, three bytes for four characters |

## Left out

- AddElem: does not model MNF_WITHNOEND, or insertion relative to a current node that is not an element.
- RemoveElem: the class method does not drop saved positions itself; `Restoring.RemoveElem` adds that step.
- SetAttrib: the class method is for documents with well-formed tags, in which every attribute has a quoted value; `Valueless.SetsItem` has the others.
- ParseDoc: result strings.
- DocTypeNode: document types that nest anything but comments, instructions and declarations, where an assignment left open in one tag goes on in the next.
- RabinKarp: an empty pattern, which has no window whose hash the code could keep, and one longer than the text, for which it reads past the end of the text.
- StringSearch.RabinHash.RollHash: characters above 127, whose sign the code does not allow for.
- UnescapeText: whitespace flags; reading past the end of the buffer is modelled as reading zeros.
- GetData: a CDATA node shorter than its delimiters is read as empty, where the code passes a negative length on.
- FindElem: paths, predicates and names; only the step to the next sibling.
- CheckSavedPos: one map; the array of maps and its growth (GetMap) are not modelled.
- GrowElemPosTree: the growable array is proved by itself; in CMarkup the records are a sequence.
- ElementData.DataOf: node positions, so GetData of a non-element node.
- Integer and bit-field widths of offsets and levels, the Level field, and the Windows line end.
- x_SetElemContent and AddSubDoc, which parse a piece of text into an element. Nothing is proved of the write to the virtual parent when the child index is 0 (demos/markup/Markup.cpp:4633-4634).
- File mode, locale and iconv conversion, encoding detection, case-insensitive names, error strings.
- bl_markup.cpp, a near copy; gear.cpp, whose shift precedence makes the rolled hash another function; sorting exercises, wrappers around libraries and system calls, and language samples.
- Console tracing and input reading in the sweep line, and the trace output of the other samples.
