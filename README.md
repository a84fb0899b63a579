# FBReader core, modelled in Dafny

This project models four pieces of the FBReader e-book reader and proves properties of them.

- **Text selection** (`selection_model.dfy`, module `SelectionModel`).
  - A selection is two bounds. Each bound holds two optional text positions, `before` and `after`; a position is a (paragraph, text element, char) triple.
  - Modelled: the bound order (`Bound::operator<`), the normalised span `range()` and the emptiness test.
  - Modelled: the hit test `setBound`, which maps a screen point onto a bound by scanning the page's laid-out element rectangles and then the characters of the word under the point.
  - Modelled: the selection object (`activate`, `extendTo`, `deactivate`, `clear`) as a class whose methods update its fields.
- **Book collection** (`book_collection.dfy`, module `Books`).
  - Books are grouped by author in a map, with the author list kept beside it (`addDescription`).
  - Each author's books are sorted by title after the scan.
  - The `isActual` test compares the stored options with the current ones.
  - `collectDirNames` splits the ':'-separated search path and walks the directories breadth first, taking each name once.
- **Word (.doc) main stream data model** (`ole_main_stream.dfy`, module `DocStream`).
  - The declared records: pieces, character and paragraph formatting runs, sections.
  - The font-style bit set and the alignment codes.
  - The style-id sentinels.
  - The four-state toggle operand `PrlFlag`. Its four codes (0x00, 0x01, 0x80, 0x81) are the ToggleOperand values of section 2.6.1 of the Microsoft Word Binary File Format ([MS-DOC]); how they act on a style bit is an assumption, listed under "Left out".
  - Applying a toggle operand to a font bit is modelled as a pure function.
  - The style-at-offset lookup `getIstdByOffset` is modelled as a loop.
- **File browser** (`file_handler.dfy`, module `FileHandler`): which nodes of a directory listing are shown (`isNodeVisible`), and which icon each node gets (`pixmapName`).

`wrappers.dfy` holds the shared `Option` type. It stands for a null pointer, a failed lookup or a missing plugin.

Methods with loops are proved against specification functions, and the properties are then proved about those functions:

- `FindStop` and `CharIndex` against `FirstStop` and `NearestChar`;
- `SetBound` against `BoundAt`;
- `SplitSearchPath` against `SplitPath`.

The collection keeps its grouping invariant (`Grouped`, checked through `Valid()`) across every update.

## Model

| member | source | states |
|---|---|---|
| SelectionModel.Equal | fbreader/src/textview/SelectionModel.cpp:105-111 | two positions compare equal exactly when they are the same position (existence flag, paragraph, element and char all agree) |
| SelectionModel.NotEqual | fbreader/src/textview/SelectionModel.cpp:113-115 | `!=` holds exactly when the positions differ, the negation of `==` |
| SelectionModel.LessIrreflexive | fbreader/src/textview/SelectionModel.cpp:162-192 | no bound is below itself, whichever positions are missing |
| SelectionModel.MissingBeforeIsLeast | fbreader/src/textview/SelectionModel.cpp:163-168 | nothing is below a bound without a `before` position; such a bound is below every bound that has one |
| SelectionModel.LessIsLexicographic | fbreader/src/textview/SelectionModel.cpp:177-191 | between bounds with both positions present, `<` is the strict lexicographic order of (paragraph, element, char) of `before` |
| SelectionModel.LessAsymmetric | fbreader/src/textview/SelectionModel.cpp:162-192 | `a < b` excludes `b < a` |
| SelectionModel.LessTransitive | fbreader/src/textview/SelectionModel.cpp:162-192 | `a < b` and `b < c` give `a < c`, so the bound order is a strict partial order |
| SelectionModel.RangeStartsAtLesserBound | fbreader/src/textview/SelectionModel.cpp:155-160 | the span runs from the `after` position of the lesser bound to the `before` position of the other: `(second.after, first.before)` when `second < first`, `(first.after, second.before)` otherwise |
| SelectionModel.RangeOrderIndependent | fbreader/src/textview/SelectionModel.cpp:155-160 | for two ordered bounds the span does not depend on which bound was set first |
| SelectionModel.FirstStop | fbreader/src/textview/SelectionModel.cpp:37-42 | the scan stops at the first element below the point's line or on it and ending right of it; every element before it is passed, and it is the end of the map when none stops |
| SelectionModel.FindStop | fbreader/src/textview/SelectionModel.cpp:37-42 | the iterator loop stops where `FirstStop` says |
| SelectionModel.Reach | fbreader/src/textview/SelectionModel.cpp:64-67 | the char loop stops at the first prefix whose width reaches the point, or at the word's end; every earlier prefix ends left of the point |
| SelectionModel.CharIndex | fbreader/src/textview/SelectionModel.cpp:58-70 | the char loop with its final step back computes `NearestChar` |
| SelectionModel.NearestCharInWord | fbreader/src/textview/SelectionModel.cpp:58-70 | for a point at or right of the word's start, the chosen char index lies between 0 and the word's length |
| SelectionModel.NearestCharIsNearest | fbreader/src/textview/SelectionModel.cpp:64-70 | inside a word, the chosen boundary is the nearer of the two around the point (a tie goes to the later one), and every earlier boundary lies left of the point |
| SelectionModel.SetBound | fbreader/src/textview/SelectionModel.cpp:32-91 | `setBound` returns `BoundAt` of the old bound; on an empty element map it changes nothing |
| SelectionModel.BoundOnWordCollapses | fbreader/src/textview/SelectionModel.cpp:49-73 | a point over a word gives `before == after`: one present position in that word, its char within the word |
| SelectionModel.BoundOnOtherElementKeepsChar | fbreader/src/textview/SelectionModel.cpp:49-53 | a point over an element that is not a word puts `after` at the element's start; `before` takes the element's paragraph and number but keeps its old char number |
| SelectionModel.BoundInGap | fbreader/src/textview/SelectionModel.cpp:76-82 | a point in the gap before element `i > 0` gives `before` = end of element `i - 1` and `after` = start of element `i` |
| SelectionModel.BoundBeforeText | fbreader/src/textview/SelectionModel.cpp:74-75 | a point before the first element gives no `before` position and `after` at the first element's start |
| SelectionModel.BoundAfterText | fbreader/src/textview/SelectionModel.cpp:83-90 | a point after every element gives no `after` position and `before` at the end of the last element |
| SelectionModel.Selection.constructor | fbreader/src/textview/SelectionModel.cpp:29-30 | a new selection is inactive, flagged empty, with no pending update |
| SelectionModel.Selection.Activate | fbreader/src/textview/SelectionModel.cpp:93-103 | on an empty map nothing changes; otherwise the selection becomes active and non-empty, the first bound is set from the point, the second bound equals the first, and the cursor set is cleared |
| SelectionModel.Selection.ExtendTo | fbreader/src/textview/SelectionModel.cpp:117-139 | inactive or empty map: returns false and changes nothing. Otherwise: the second bound is set from the point and the point is stored. Scrolling runs backward when `before` is missing, forward when `after` is missing, and stops otherwise. The result is true exactly when the span changed |
| SelectionModel.Selection.Deactivate | fbreader/src/textview/SelectionModel.cpp:141-145 | inactive, no pending update, scrolling stopped; the empty flag and the bounds are kept, so `isEmpty` is unchanged |
| SelectionModel.Selection.Clear | fbreader/src/textview/SelectionModel.cpp:147-153 | flagged empty, inactive, no pending update, cursors cleared, scrolling stopped; `isEmpty` then holds |
| SelectionModel.ActivationOnWordIsEmpty | fbreader/src/textview/SelectionModel.cpp:194-200 | pressing on a word, or past the end of the text, starts a selection that `isEmpty` reports as empty |
| Books.StringLessIrreflexive | fbreader/common/collection/BookCollection.cpp:38-40 | no title is below itself |
| Books.StringLessTransitive | fbreader/common/collection/BookCollection.cpp:38-40 | the title order is transitive |
| Books.StringLessTotal | fbreader/common/collection/BookCollection.cpp:38-40 | of two different titles one is below the other |
| Books.InsertByTitle | fbreader/common/collection/BookCollection.cpp:92-95 | inserting into a title-sorted list keeps it sorted and adds exactly that book |
| Books.SortByTitle | fbreader/common/collection/BookCollection.cpp:92-95 | the sort yields a list sorted by title that is a permutation of its input |
| Books.AppendKeepsGrouped | fbreader/common/collection/BookCollection.cpp:149-157 | appending a book to the entry carrying its author's names keeps the grouping invariant |
| Books.InsertKeepsGrouped | fbreader/common/collection/BookCollection.cpp:158-163 | a new one-book entry for an author whose names are not filed keeps the grouping, with the author appended to the list |
| Books.SortKeepsGrouped | fbreader/common/collection/BookCollection.cpp:93-95 | replacing every author's books by their title sort keeps the grouping |
| Books.SortEntries | fbreader/common/collection/BookCollection.cpp:93-95 | the loop over the entries leaves the same keys, each entry the title sort of the original one, and the grouping intact |
| Books.SortingKeepsBooksNamed | fbreader/common/collection/BookCollection.cpp:87-95 | once every description is filed and every entry sorted, each entry is sorted by title and is a permutation of its author's books, and every description's author has an entry |
| Books.FilingExtendsBooksNamed | fbreader/common/collection/BookCollection.cpp:87-89 | after filing one more description, every entry holds exactly that author's books among the descriptions so far, and every filed author has an entry |
| Books.FindAuthor | fbreader/common/collection/BookCollection.cpp:149-155 | the key scan finds nothing exactly when no key carries the author's sort key and display name, and otherwise returns a key that carries them |
| Books.BookCollection.AddDescription | fbreader/common/collection/BookCollection.cpp:140-164 | a null description changes nothing. A book whose author's names are filed joins that list, with the keys and the author list unchanged. Otherwise its author gets a one-book entry and is appended to the author list. The grouping invariant holds throughout |
| Books.BookCollection.SortBooks | fbreader/common/collection/BookCollection.cpp:92-95 | each author's list becomes its title sort; keys, author list and grouping unchanged |
| Books.BookCollection.constructor | fbreader/common/collection/BookCollection.cpp:42-96 | after construction the collection is grouped, `isActual` holds for the options it was built with, every author's books are sorted by title and are a permutation of that author's descriptions, and every description's author has an entry |
| Books.IndexOf | fbreader/common/collection/BookCollection.cpp:108 | `find(':')` returns -1 exactly when there is no ':', and otherwise the index of the first ':' |
| Books.SplitSearchPath | fbreader/common/collection/BookCollection.cpp:107-116 | the split loop queues the segments `SplitPath` gives, left to right; a final empty remainder is not queued |
| Books.SplitSegmentsHaveNoColon | fbreader/common/collection/BookCollection.cpp:107-116 | no queued segment holds ':' |
| Books.SplitPathRoundTrip | fbreader/common/collection/BookCollection.cpp:107-116 | joining the segments with ':' gives the path back, apart from a trailing ':' that the split drops |
| Books.JoinSplitRoundTrip | fbreader/common/collection/BookCollection.cpp:107-116 | splitting the join of ':'-free segments whose last one is not empty gives the segments back |
| Books.WalkSkipStep | fbreader/common/collection/BookCollection.cpp:119-121 | dequeuing a name already in the set only drops it from the queue |
| Books.WalkTakeStep | fbreader/common/collection/BookCollection.cpp:121-133 | taking a new name, and queueing its subdirectories when scanning, keeps the walk invariant |
| Books.CollectDirNames | fbreader/common/collection/BookCollection.cpp:104-135 | every path segment ends in the set. When scanning, the set is closed under subdirectories. Without scanning, it is exactly the set of segments. Each name is taken once, as a segment or as a child of a name taken before it |
| Books.DerivedNamesAreReachable | fbreader/common/collection/BookCollection.cpp:118-134 | the walk takes nothing more than it must: its names lie in every set that holds the segments and is closed under subdirectories when scanning |
| DocStream.MaskIsSingleBit | fbreader/src/formats/doc/OleMainStream.h:40-49 | each font style is a single bit |
| DocStream.MaskIsLow | fbreader/src/formats/doc/OleMainStream.h:40-49 | every style bit lies within the low ten bits (mask 0x3FF) |
| DocStream.FontMasksDisjoint | fbreader/src/formats/doc/OleMainStream.h:40-49 | different font styles have disjoint bits |
| DocStream.RegularHasNoFont | fbreader/src/formats/doc/OleMainStream.h:39 | `REGULAR` (0) holds no style |
| DocStream.ApplyFlag | fbreader/src/formats/doc/OleMainStream.h:135-140 | an operand on a single-bit mask: UNSET clears the bit, SET sets it, UNCHANGED keeps it, NEGATION inverts it; the other bits are untouched |
| DocStream.ApplyToggle | fbreader/src/formats/doc/OleMainStream.h:135-140 | the same per font style: the style's bit follows the operand and every other style bit of `fontStyle` is kept |
| DocStream.ApplyToggleByte | fbreader/src/formats/doc/OleMainStream.h:135-140 | 0 clears the style's bit, 128 keeps it, 129 flips it, and 1 or any other byte sets it; every other style bit is kept |
| DocStream.UnchangedIsIdentity | fbreader/src/formats/doc/OleMainStream.h:138 | UNCHANGED leaves the style set exactly as inherited |
| DocStream.NegationInvolutive | fbreader/src/formats/doc/OleMainStream.h:139 | NEGATION applied twice restores the original style set |
| DocStream.LaterOperandWins | fbreader/src/formats/doc/OleMainStream.h:136-137 | after SET or UNSET, a second SET or UNSET on the same style alone decides the result |
| DocStream.TogglesOnDistinctFontsCommute | fbreader/src/formats/doc/OleMainStream.h:38-50 | operands on two different styles commute |
| DocStream.FlagsOnDisjointBitsCommute | fbreader/src/formats/doc/OleMainStream.h:135-140 | operands on disjoint single bits commute, for all 16 pairs of flags |
| DocStream.AlignmentRoundTrip | fbreader/src/formats/doc/OleMainStream.h:62-67 | the alignment codes are exactly 0..3, and code and alignment convert both ways |
| DocStream.PrlFlagRoundTrip | fbreader/src/formats/doc/OleMainStream.h:135-140 | the operand bytes are exactly 0, 1, 128 and 129, and byte and flag convert both ways |
| DocStream.StyleIdsOrdered | fbreader/src/formats/doc/OleMainStream.h:86-93 | `H1 < H2 < H3 < STI_USER < STI_NIL < ISTD_INVALID`, so the ids are distinct and the headings lie below the sentinels |
| DocStream.GetIstdByOffset | fbreader/src/formats/doc/OleMainStream.h:132 | the style id at an offset is the `istd` of the last entry starting at or before it, or `ISTD_INVALID` when every entry starts after it |
| DocStream.SpanOwnerIsLastStarted | fbreader/src/formats/doc/OleMainStream.h:69 | in a list with increasing offsets, the entry whose span (its offset up to the next entry's) holds a character is the last entry started at or before it |
| DocStream.OleMainStream.GetPieces | fbreader/src/formats/doc/OleMainStream.h:108 | returns the decoded pieces and changes nothing |
| DocStream.OleMainStream.GetCharInfoList | fbreader/src/formats/doc/OleMainStream.h:109 | returns the character runs and changes nothing |
| DocStream.OleMainStream.GetStyleInfoList | fbreader/src/formats/doc/OleMainStream.h:110 | returns the paragraph runs and changes nothing |
| FileHandler.EmptyNameIsHidden | fbreader/common/fbreader/FBFileHandler.cpp:30-32 | a node with an empty name is never shown |
| FileHandler.DotNamesHiddenButParent | fbreader/common/fbreader/FBFileHandler.cpp:33-35 | a name starting with '.' is shown exactly when the node is a directory named ".." |
| FileHandler.OtherNamesVisibility | fbreader/common/fbreader/FBFileHandler.cpp:36-37 | every other directory is shown; every other file is shown exactly when it is an archive or a plugin reads its extension |
| FileHandler.IconByKind | fbreader/common/fbreader/FBFileHandler.cpp:40-56 | directories get the folder icon whatever their name, archives the zip-folder icon, other files their plugin's icon or else the unknown icon |
| FileHandler.VisibleFilesHaveKnownIcons | fbreader/common/fbreader/FBFileHandler.cpp:28-56 | a shown file gets the zip-folder icon or its plugin's icon; a file with neither archive nor plugin gets the unknown icon and is hidden |
| FileHandler.VisibleDirectories | fbreader/common/fbreader/FBFileHandler.cpp:28-46 | a directory is shown exactly when it is ".." or its name is non-empty and does not start with '.'; it always gets the folder icon |

## Left out

- Selection scrolling: `startSelectionScrolling`, `stopSelectionScrolling`, `SelectionScroller` and `scrollAndExtend` work through the timer manager and view repaints. Only the scroll direction is kept, as the field `scrolling`.
- `SelectionModel::update` and `getText` are not modelled:
  - they copy text to the clipboard through word cursors and UTF-8 length helpers that are not part of this model;
  - the set of paragraph cursors is modelled as a set of paragraph numbers.
- `SelectionModel.Covers`: the definition of `TextElementArea::RangeChecker` is not available. It is taken to be the inclusive rectangle test.
- `SelectionModel.SetBound` does not model font metrics or word lookup:
  - width measurement (`setStyle`, `startCursor`, the word lookup, `wordWidth`) is a parameter `width(element, n)`;
  - the element map of the view is a parameter.
- `SelectionModel.Selection.constructor` gives both bounds absent positions: the default constructor of `Bound` is declared in a header whose definition is not available, so its initial values are unknown.
- Integer widths: paragraph, element and char numbers and pixel coordinates are unbounded integers, so C++ `int` overflow is not modelled.
- `BookCollection` constructor scanning is not modelled:
  - directory listing, zip entries, `BookList`, `BookDescription::create` and the option objects;
  - the constructor takes the option values and the descriptions (null ones included) as parameters.
- `Books.BookCollection.constructor` leaves out the sort of the author list: the definition of `AuthorComparator` is not available, so `authors` stays in filing order.
- `Books.SortByTitle` picks one order among books with equal titles, whereas `std::sort` may pick another. The contracts state only sortedness and permutation.
- `Books.FindAuthor` scans the map keys in an unspecified order. The model picks keys arbitrarily, which does not matter because at most one key carries given names.
- `Books.CollectDirNames` takes the file system as a finite map `DirTree` from a directory name to the full names of its subdirectories, as `ZLFile(name).directory()` and `collectSubDirs` would report them:
  - a name missing from the map is not a directory;
  - `ZLDir::name()` normalisation is not modelled;
  - the snapshot is finite, so the walk always ends. In the source a directory that links back to an ancestor can yield ever longer names through `dir->name() + '/' + *it` (fbreader/common/collection/BookCollection.cpp:128), and the walk need not end; the model does not capture that.
- `Books.CollectDirNames` starts from an empty set, as the constructor's call does.
- `FBFileHandler::accept` only calls `BookDescription::create`, whose definition is not available.
- `OleMainStream` readers are not modelled, because only their declarations are known:
  - `open`, `readFIB`, the piece-table, stylesheet, section, paragraph and character table readers;
  - `getInfoLength`, `getCharInfo`, `getStyleInfo`, `getSectionInfo`;
  - `getStyleInfoFromStylesheet`, `getCharInfoFromStylesheet`, `getStyleIndex`;
  - the OLE storage classes.
  The decoded lists are fields of `DocStream.OleMainStream`, and only the accessors are modelled.
- `DocStream.GetIstdByOffset`: only the declaration is available. The rule it proves (the last entry starting at or before the offset wins, and `ISTD_INVALID` when none does) is inferred from the declaration and from the comment on `StyleInfo::offset`.
- `DocStream.ApplyFlag`, `DocStream.ApplyToggle` and `DocStream.ApplyToggleByte` are not members of the header. The readers that apply a `PrlFlag` to `fontStyle` are only declared, so these functions rest on assumptions about code that is not available:
  - only the four codes come from section 2.6.1 of [MS-DOC];
  - [MS-DOC] defines 0x80 and 0x81 against the value in the style, whereas the model reads UNCHANGED as keeping the current bit and NEGATION as flipping it; `DocStream.NegationInvolutive` and `DocStream.UnchangedIsIdentity` depend on that reading;
  - [MS-DOC] allows no other operand byte; reading any other byte as SET is an assumption;
  - `fontStyle` is modelled as a 32-bit vector.
- The default constructors of `CharInfo`, `StyleInfo` and `SectionInfo` are not modelled, because only their declarations are known.
