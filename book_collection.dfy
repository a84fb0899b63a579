/** The library's book collection: the books found under the search path,
    grouped by author and sorted by title, and the walk over the search path
    that finds the directories to scan. */
module Books {
  import opened Wrappers

  /** An author. `id` stands for the identity of the author object (the
      collection is keyed by pointer); two authors with different ids may
      carry the same names. */
  datatype Author = Author(id: nat, sortKey: string, displayName: string)

  datatype BookDescription = BookDescription(fileName: string, title: string, author: Author)

  /** The test `addDescription` uses to find an existing author. */
  predicate SameName(a: Author, b: Author)
  {
    a.sortKey == b.sortKey && a.displayName == b.displayName
  }

  // ---------------------------------------------------------------------
  // Titles and their order.

  /** `std::string::operator<`: lexicographic order on characters. */
  predicate StringLess(a: string, b: string)
  {
    if |a| == 0 then |b| > 0
    else if |b| == 0 then false
    else if a[0] < b[0] then true
    else if a[0] > b[0] then false
    else StringLess(a[1..], b[1..])
  }

  lemma {:induction false} StringLessIrreflexive(a: string)
    ensures !StringLess(a, a)
  {
    if |a| > 0 {
      StringLessIrreflexive(a[1..]);
    }
  }

  lemma {:induction false} StringLessTransitive(a: string, b: string, c: string)
    requires StringLess(a, b) && StringLess(b, c)
    ensures StringLess(a, c)
  {
    if |a| > 0 && |b| > 0 && |c| > 0 && a[0] == b[0] && b[0] == c[0] {
      StringLessTransitive(a[1..], b[1..], c[1..]);
    }
  }

  /** Two different titles are always ordered one way or the other. */
  lemma {:induction false} StringLessTotal(a: string, b: string)
    requires a != b
    ensures StringLess(a, b) || StringLess(b, a)
  {
    if |a| > 0 && |b| > 0 && a[0] == b[0] {
      assert a == [a[0]] + a[1..] && b == [b[0]] + b[1..];
      StringLessTotal(a[1..], b[1..]);
    }
  }

  /** "Not below" is transitive, which is what a sorted list relies on. */
  lemma NotLessTransitive(a: string, b: string, c: string)
    requires !StringLess(b, a) && !StringLess(c, b)
    ensures !StringLess(c, a)
  {
    if StringLess(c, a) {
      if a == b {
      } else {
        StringLessTotal(a, b);
        StringLessTransitive(c, a, b);
      }
    }
  }

  /** `DescriptionComparator`: order by title. */
  predicate TitleLess(d1: BookDescription, d2: BookDescription)
  {
    StringLess(d1.title, d2.title)
  }

  predicate SortedByTitle(s: seq<BookDescription>)
  {
    forall i, j :: 0 <= i < j < |s| ==> !TitleLess(s[j], s[i])
  }

  /** Insert into a list sorted by title, after the entries not above it. */
  function InsertByTitle(d: BookDescription, s: seq<BookDescription>): (r: seq<BookDescription>)
    requires SortedByTitle(s)
    ensures SortedByTitle(r)
    ensures multiset(r) == multiset(s) + multiset{d}
  {
    if |s| == 0 then [d]
    else if TitleLess(d, s[0]) then
      BelowHeadIsBelowAll(d, s);
      ConsKeepsSorted(d, s);
      [d] + s
    else
      var rest := InsertByTitle(d, s[1..]);
      NotBelowHeadStaysAbove(d, s, rest);
      ConsKeepsSorted(s[0], rest);
      assert s == [s[0]] + s[1..];
      [s[0]] + rest
  }

  /** An entry below the head of a sorted list is below all of it. */
  lemma BelowHeadIsBelowAll(d: BookDescription, s: seq<BookDescription>)
    requires SortedByTitle(s) && |s| > 0 && TitleLess(d, s[0])
    ensures forall j :: 0 <= j < |s| ==> !TitleLess(s[j], d)
  {
    forall j | 0 <= j < |s|
      ensures !TitleLess(s[j], d)
    {
      if TitleLess(s[0], d) {
        StringLessTransitive(d.title, s[0].title, d.title);
        StringLessIrreflexive(d.title);
      }
      StringLessIrreflexive(s[0].title);
      NotLessTransitive(d.title, s[0].title, s[j].title);
    }
  }

  /** Inserting an entry not below the head into the tail of a sorted list
      leaves every entry of the new tail not below the head. */
  lemma NotBelowHeadStaysAbove(d: BookDescription, s: seq<BookDescription>, rest: seq<BookDescription>)
    requires SortedByTitle(s) && |s| > 0 && !TitleLess(d, s[0])
    requires multiset(rest) == multiset(s[1..]) + multiset{d}
    ensures forall j :: 0 <= j < |rest| ==> !TitleLess(rest[j], s[0])
  {
    forall j | 0 <= j < |rest|
      ensures !TitleLess(rest[j], s[0])
    {
      assert rest[j] in multiset(rest);
      if rest[j] != d {
        assert rest[j] in multiset(s[1..]);
        var k :| 0 <= k < |s[1..]| && s[1..][k] == rest[j];
        assert s[k + 1] == rest[j];
      }
    }
  }

  lemma ConsKeepsSorted(x: BookDescription, t: seq<BookDescription>)
    requires SortedByTitle(t)
    requires forall j :: 0 <= j < |t| ==> !TitleLess(t[j], x)
    ensures SortedByTitle([x] + t)
  {
    var r := [x] + t;
    forall i, j | 0 <= i < j < |r|
      ensures !TitleLess(r[j], r[i])
    {
      assert r[j] == t[j - 1];
      if i > 0 {
        assert r[i] == t[i - 1];
      }
    }
  }

  /** The sort applied to each author's books (`std::sort` with
      `DescriptionComparator`). */
  function SortByTitle(s: seq<BookDescription>): (r: seq<BookDescription>)
    ensures SortedByTitle(r)
    ensures multiset(r) == multiset(s)
  {
    if |s| == 0 then []
    else
      assert s == s[..|s| - 1] + [s[|s| - 1]];
      InsertByTitle(s[|s| - 1], SortByTitle(s[..|s| - 1]))
  }

  // ---------------------------------------------------------------------
  // The collection.

  /** Some author of the collection carries the names of `author`. */
  predicate HasAuthorNamed(m: map<Author, seq<BookDescription>>, author: Author)
  {
    exists a :: a in m && SameName(a, author)
  }

  /** The books of a list of descriptions written by an author with the
      names of `a`, in list order; a null description is skipped. */
  function BooksNamed(ds: seq<Option<BookDescription>>, a: Author): seq<BookDescription>
  {
    if |ds| == 0 then []
    else
      var last := ds[|ds| - 1];
      BooksNamed(ds[..|ds| - 1], a) +
        (if last.Some? && SameName(last.value.author, a) then [last.value] else [])
  }

  /** One entry per pair of names, none of them empty, every book under
      the author it names, and `authors` lists the entries once each. */
  predicate Grouped(collection: map<Author, seq<BookDescription>>, authors: seq<Author>)
  {
    (forall a, b :: a in collection && b in collection && SameName(a, b) ==> a == b) &&
    (forall a :: a in collection ==> |collection[a]| > 0) &&
    (forall a, d :: a in collection && d in collection[a] ==> SameName(d.author, a)) &&
    (forall a :: a in collection ==> a in authors) &&
    (forall a :: a in authors ==> a in collection) &&
    (forall i, j :: 0 <= i < j < |authors| ==> authors[i] != authors[j])
  }

  /** The effect of `addDescription` on the map from authors to books: a
      null description changes nothing; a book whose author's names are
      already filed joins that list; otherwise its author gets a new entry. */
  predicate Filed(before: map<Author, seq<BookDescription>>, description: Option<BookDescription>,
                  after: map<Author, seq<BookDescription>>)
  {
    match description
    case None => after == before
    case Some(d) =>
      if HasAuthorNamed(before, d.author) then
        after.Keys == before.Keys &&
        forall a :: a in after ==> after[a] == before[a] + (if SameName(a, d.author) then [d] else [])
      else
        after == before[d.author := [d]]
  }

  /** Appending a book to the entry with its author's names keeps the
      grouping. */
  lemma AppendKeepsGrouped(c: map<Author, seq<BookDescription>>, authors: seq<Author>,
                           a: Author, d: BookDescription)
    requires Grouped(c, authors)
    requires a in c && SameName(a, d.author)
    ensures Grouped(c[a := c[a] + [d]], authors)
    ensures Filed(c, Some(d), c[a := c[a] + [d]])
  {
    var c' := c[a := c[a] + [d]];
    forall b: Author, e: BookDescription | b in c' && e in c'[b]
      ensures SameName(e.author, b)
    {
      if b == a && e !in c[a] {
        assert e == d;
      }
    }
  }

  /** A new entry for an author whose names are not filed keeps the
      grouping. */
  lemma InsertKeepsGrouped(c: map<Author, seq<BookDescription>>, authors: seq<Author>, d: BookDescription)
    requires Grouped(c, authors)
    requires !HasAuthorNamed(c, d.author)
    ensures Grouped(c[d.author := [d]], authors + [d.author])
  {
    var c', authors' := c[d.author := [d]], authors + [d.author];
    assert d.author !in c;
    forall i, j | 0 <= i < j < |authors'|
      ensures authors'[i] != authors'[j]
    {
      if j == |authors| {
        assert authors'[i] in authors;
      }
    }
    forall x | x in authors'
      ensures x in c'
    {
      if x != d.author {
        assert x in authors;
      }
    }
  }

  /** Sorting every entry keeps the grouping. */
  lemma SortKeepsGrouped(c: map<Author, seq<BookDescription>>, sorted: map<Author, seq<BookDescription>>,
                         authors: seq<Author>)
    requires Grouped(c, authors)
    requires sorted.Keys == c.Keys
    requires forall a :: a in sorted ==> sorted[a] == SortByTitle(c[a])
    ensures Grouped(sorted, authors)
  {
    forall a, d | a in sorted && d in sorted[a]
      ensures SameName(d.author, a)
    {
      SortedEntryHasSameBooks(c[a], d);
    }
    forall a | a in sorted
      ensures |sorted[a]| > 0
    {
      var entry := c[a];
      assert |SortByTitle(entry)| == |multiset(SortByTitle(entry))| == |multiset(entry)| == |entry|;
    }
  }

  lemma SortedEntryHasSameBooks(entry: seq<BookDescription>, d: BookDescription)
    requires d in SortByTitle(entry)
    ensures d in entry
  {
    assert d in multiset(SortByTitle(entry));
  }

  /** The map holds the first `n` descriptions filed: each entry lists its
      author's books among them in order, and each of their authors has an
      entry. */
  predicate FiledSoFar(c: map<Author, seq<BookDescription>>, ds: seq<Option<BookDescription>>, n: nat)
  {
    n <= |ds| &&
    (forall a :: a in c ==> c[a] == BooksNamed(ds[..n], a)) &&
    (forall k :: 0 <= k < n && ds[k].Some? ==> HasAuthorNamed(c, ds[k].value.author))
  }

  /** Filing description `i` extends the grouping of the first `i`
      descriptions to the first `i + 1`. */
  lemma FilingExtendsBooksNamed(before: map<Author, seq<BookDescription>>,
                                after: map<Author, seq<BookDescription>>,
                                ds: seq<Option<BookDescription>>, i: nat)
    requires i < |ds|
    requires FiledSoFar(before, ds, i)
    requires Filed(before, ds[i], after)
    ensures FiledSoFar(after, ds, i + 1)
  {
    FilingExtendsEntries(before, after, ds, i);
    FilingKeepsAuthors(before, after, ds, i);
  }

  lemma FilingExtendsEntries(before: map<Author, seq<BookDescription>>,
                             after: map<Author, seq<BookDescription>>,
                             ds: seq<Option<BookDescription>>, i: nat)
    requires i < |ds|
    requires FiledSoFar(before, ds, i)
    requires Filed(before, ds[i], after)
    ensures forall a :: a in after ==> after[a] == BooksNamed(ds[..i + 1], a)
  {
    assert ds[..i + 1][..i] == ds[..i];
    forall a | a in after
      ensures after[a] == BooksNamed(ds[..i + 1], a)
    {
      if a !in before {
        BooksNamedUnknown(ds[..i], a);
      }
    }
  }

  lemma FilingKeepsAuthors(before: map<Author, seq<BookDescription>>,
                           after: map<Author, seq<BookDescription>>,
                           ds: seq<Option<BookDescription>>, i: nat)
    requires i < |ds|
    requires FiledSoFar(before, ds, i)
    requires Filed(before, ds[i], after)
    ensures forall k :: 0 <= k < i + 1 && ds[k].Some? ==> HasAuthorNamed(after, ds[k].value.author)
  {
    forall k | 0 <= k < i + 1 && ds[k].Some?
      ensures HasAuthorNamed(after, ds[k].value.author)
    {
      if k < i {
        var a :| a in before && SameName(a, ds[k].value.author);
        assert a in after;
      } else if !HasAuthorNamed(before, ds[k].value.author) {
        assert ds[k].value.author in after;
      } else {
        var a :| a in before && SameName(a, ds[k].value.author);
        assert a in after;
      }
    }
  }

  /** Sorting every entry keeps each author's books, now in title order,
      and keeps an entry for every filed author. */
  lemma SortingKeepsBooksNamed(unsorted: map<Author, seq<BookDescription>>,
                               sorted: map<Author, seq<BookDescription>>,
                               ds: seq<Option<BookDescription>>)
    requires FiledSoFar(unsorted, ds, |ds|)
    requires sorted.Keys == unsorted.Keys
    requires forall a :: a in sorted ==> sorted[a] == SortByTitle(unsorted[a])
    ensures forall a :: a in sorted ==> SortedByTitle(sorted[a])
    ensures forall a :: a in sorted ==> multiset(sorted[a]) == multiset(BooksNamed(ds, a))
    ensures forall k :: 0 <= k < |ds| && ds[k].Some? ==> HasAuthorNamed(sorted, ds[k].value.author)
  {
    assert ds[..|ds|] == ds;
    forall k | 0 <= k < |ds| && ds[k].Some?
      ensures HasAuthorNamed(sorted, ds[k].value.author)
    {
      var a :| a in unsorted && SameName(a, ds[k].value.author);
      assert a in sorted;
    }
  }

  class BookCollection {
    var path: string
    var scanSubdirs: bool
    var collection: map<Author, seq<BookDescription>>
    /** The authors in the order of their first book. */
    var authors: seq<Author>

    predicate Valid()
      reads this
    {
      Grouped(collection, authors)
    }

    /** The collection built from the descriptions of the files found under
        `path`: their books grouped by author, each group sorted by title. */
    constructor (path: string, scanSubdirs: bool, descriptions: seq<Option<BookDescription>>)
      ensures Valid()
      ensures IsActual(scanSubdirs, path)
      ensures forall a :: a in collection ==> SortedByTitle(collection[a])
      ensures forall a :: a in collection ==> multiset(collection[a]) == multiset(BooksNamed(descriptions, a))
      ensures forall k :: 0 <= k < |descriptions| && descriptions[k].Some? ==>
        HasAuthorNamed(collection, descriptions[k].value.author)
    {
      this.path := path;
      this.scanSubdirs := scanSubdirs;
      collection := map[];
      authors := [];
      new;
      var i := 0;
      while i < |descriptions|
        invariant 0 <= i <= |descriptions|
        invariant Valid()
        invariant this.path == path && this.scanSubdirs == scanSubdirs
        invariant FiledSoFar(collection, descriptions, i)
      {
        ghost var before := collection;
        AddDescription(descriptions[i]);
        FilingExtendsBooksNamed(before, collection, descriptions, i);
        i := i + 1;
      }
      ghost var unsorted := collection;
      SortBooks();
      SortingKeepsBooksNamed(unsorted, collection, descriptions);
    }

    /** `isActual()`: the collection was built with the current values of
        the path and scan-subdirectories options. */
    predicate IsActual(currentScanSubdirs: bool, currentPath: string)
      reads this
    {
      scanSubdirs == currentScanSubdirs && path == currentPath
    }

    /** `addDescription`: file a book under its author, adding the author
        when no entry carries its names; a null description is ignored. */
    method AddDescription(description: Option<BookDescription>)
      requires Valid()
      modifies this
      ensures Valid()
      ensures path == old(path) && scanSubdirs == old(scanSubdirs)
      ensures Filed(old(collection), description, collection)
      ensures authors == old(authors) +
        (if description.Some? && !HasAuthorNamed(old(collection), description.value.author)
         then [description.value.author] else [])
    {
      if description.None? {
        return;
      }
      var d := description.value;
      var found := FindAuthor(collection, d.author);
      if found.Some? {
        var a := found.value;
        AppendKeepsGrouped(collection, authors, a, d);
        collection := collection[a := collection[a] + [d]];
      } else {
        InsertKeepsGrouped(collection, authors, d);
        collection := collection[d.author := [d]];
        authors := authors + [d.author];
      }
    }

    /** The sorting loop at the end of the constructor: every author's books
        are put in title order. */
    method SortBooks()
      requires Valid()
      modifies this
      ensures Valid()
      ensures path == old(path) && scanSubdirs == old(scanSubdirs) && authors == old(authors)
      ensures collection.Keys == old(collection).Keys
      ensures forall a :: a in collection ==> collection[a] == SortByTitle(old(collection)[a])
    {
      collection := SortEntries(collection, authors);
    }
  }

  /** The scan over the entries in `addDescription` for one whose author
      carries the same names. */
  method FindAuthor(c: map<Author, seq<BookDescription>>, author: Author) returns (found: Option<Author>)
    ensures found.None? <==> !HasAuthorNamed(c, author)
    ensures found.Some? ==> found.value in c && SameName(found.value, author)
  {
    var keys := c.Keys;
    found := None;
    while keys != {}
      invariant keys <= c.Keys
      invariant found.None? ==> forall a :: a in c.Keys - keys ==> !SameName(a, author)
      invariant found.Some? ==> found.value in c && SameName(found.value, author)
      decreases |keys|
    {
      var a :| a in keys;
      if SameName(a, author) {
        found := Some(a);
        break;
      }
      keys := keys - {a};
    }
  }

  /** Every entry of the map put in title order, one entry at a time. */
  method SortEntries(original: map<Author, seq<BookDescription>>, ghost authors: seq<Author>)
    returns (c: map<Author, seq<BookDescription>>)
    requires Grouped(original, authors)
    ensures Grouped(c, authors)
    ensures c.Keys == original.Keys
    ensures forall a :: a in c ==> c[a] == SortByTitle(original[a])
  {
    c := original;
    var todo := c.Keys;
    while todo != {}
      invariant todo <= c.Keys
      invariant SortedBut(original, c, todo)
      decreases |todo|
    {
      var a :| a in todo;
      SortStep(original, c, todo, a);
      c := c[a := SortByTitle(c[a])];
      todo := todo - {a};
    }
    SortKeepsGrouped(original, c, authors);
  }

  /** Every entry of `c` outside `todo` is the sorted entry of `original`,
      and every entry in `todo` is still the original one. */
  predicate SortedBut(original: map<Author, seq<BookDescription>>, c: map<Author, seq<BookDescription>>,
                      todo: set<Author>)
  {
    c.Keys == original.Keys &&
    (forall a :: a in c && a !in todo ==> c[a] == SortByTitle(original[a])) &&
    (forall a :: a in todo && a in c ==> c[a] == original[a])
  }

  lemma SortStep(original: map<Author, seq<BookDescription>>, c: map<Author, seq<BookDescription>>,
                 todo: set<Author>, a: Author)
    requires SortedBut(original, c, todo) && a in todo && a in c
    ensures SortedBut(original, c[a := SortByTitle(c[a])], todo - {a})
  {
  }

  /** An author with no entry yet has no books among the descriptions filed
      so far. */
  lemma {:induction false} BooksNamedUnknown(ds: seq<Option<BookDescription>>, a: Author)
    requires forall k :: 0 <= k < |ds| && ds[k].Some? ==> !SameName(ds[k].value.author, a)
    ensures BooksNamed(ds, a) == []
  {
    if |ds| > 0 {
      BooksNamedUnknown(ds[..|ds| - 1], a);
    }
  }

  // ---------------------------------------------------------------------
  // The search path and the walk over its directories.

  /** `std::string::find`: the first index of `c`, or -1 (`npos`). */
  function IndexOf(s: string, c: char): (r: int)
    ensures r == -1 ==> forall k :: 0 <= k < |s| ==> s[k] != c
    ensures r != -1 ==> 0 <= r < |s| && s[r] == c && forall k :: 0 <= k < r ==> s[k] != c
  {
    if |s| == 0 then -1
    else if s[0] == c then 0
    else
      var r := IndexOf(s[1..], c);
      assert s == [s[0]] + s[1..];
      if r == -1 then -1 else r + 1
  }

  /** The segments of a ':'-separated search path, left to right; a final
      empty segment is dropped, inner empty segments are kept. */
  function SplitPath(p: string): seq<string>
    decreases |p|
  {
    var pos := IndexOf(p, ':');
    if pos == -1 then (if p == [] then [] else [p])
    else [p[..pos]] + SplitPath(p[pos + 1..])
  }

  /** The segments joined back with ':'. */
  function Join(segments: seq<string>): string
  {
    if |segments| == 0 then []
    else if |segments| == 1 then segments[0]
    else segments[0] + ":" + Join(segments[1..])
  }

  /** The splitting loop at the start of `collectDirNames`. */
  method SplitSearchPath(p: string) returns (queue: seq<string>)
    ensures queue == SplitPath(p)
  {
    queue := [];
    var path := p;
    var pos := IndexOf(path, ':');
    while pos != -1
      invariant pos == IndexOf(path, ':')
      invariant queue + SplitPath(path) == SplitPath(p)
      decreases |path|
    {
      SplitAtFirstColon(path);
      assert (queue + [path[..pos]]) + SplitPath(path[pos + 1..]) == queue + SplitPath(path);
      queue := queue + [path[..pos]];
      path := path[pos + 1..];
      pos := IndexOf(path, ':');
    }
    if path != [] {
      queue := queue + [path];
    }
  }

  /** No segment holds a ':'. */
  lemma {:induction false} SplitSegmentsHaveNoColon(p: string)
    ensures forall k :: 0 <= k < |SplitPath(p)| ==> ':' !in SplitPath(p)[k]
    decreases |p|
  {
    var pos := IndexOf(p, ':');
    if pos != -1 {
      SplitSegmentsHaveNoColon(p[pos + 1..]);
      assert SplitPath(p) == [p[..pos]] + SplitPath(p[pos + 1..]);
    }
  }

  lemma SplitPathNonEmpty(p: string)
    requires p != []
    ensures |SplitPath(p)| > 0
  {
  }

  /** The first ':' cuts the path into its first segment and the rest. */
  lemma SplitAtFirstColon(p: string)
    requires IndexOf(p, ':') != -1
    ensures var pos := IndexOf(p, ':');
      p == p[..pos] + ":" + p[pos + 1..] && SplitPath(p) == [p[..pos]] + SplitPath(p[pos + 1..])
  {
    CutAt(p, IndexOf(p, ':'));
  }

  lemma CutAt(p: string, pos: int)
    requires 0 <= pos < |p| && p[pos] == ':'
    ensures p == p[..pos] + ":" + p[pos + 1..]
  {
    var cut := p[..pos] + ":" + p[pos + 1..];
    assert |cut| == |p|;
    forall k | 0 <= k < |p|
      ensures cut[k] == p[k]
    {
      if k < pos {
        assert cut[k] == p[..pos][k];
      } else if k > pos {
        assert cut[k] == p[pos + 1..][k - pos - 1];
      }
    }
  }

  /** No segment is lost: joining the segments with ':' gives the path back,
      except for a final ':' that the split drops. */
  lemma {:induction false} SplitPathRoundTrip(p: string)
    ensures p == [] || p[|p| - 1] != ':' ==> Join(SplitPath(p)) == p
    ensures p != [] && p[|p| - 1] == ':' ==> Join(SplitPath(p)) + ":" == p
    decreases |p|
  {
    var pos := IndexOf(p, ':');
    if pos != -1 {
      var rest := p[pos + 1..];
      SplitAtFirstColon(p);
      SplitPathRoundTrip(rest);
      if rest != [] {
        SplitPathNonEmpty(rest);
      }
      RoundTripStep(p, p[..pos], rest, SplitPath(rest));
    }
  }

  /** One step of the round trip: what holds of the segments of the rest
      after the first ':' holds of the whole path. */
  lemma RoundTripStep(p: string, head: string, rest: string, segments: seq<string>)
    requires p == head + ":" + rest
    requires rest == [] <==> segments == []
    requires rest == [] || rest[|rest| - 1] != ':' ==> Join(segments) == rest
    requires rest != [] && rest[|rest| - 1] == ':' ==> Join(segments) + ":" == rest
    ensures p[|p| - 1] != ':' ==> Join([head] + segments) == p
    ensures p[|p| - 1] == ':' ==> Join([head] + segments) + ":" == p
  {
    JoinCons(head, segments);
    if rest != [] {
      assert rest[|rest| - 1] == p[|p| - 1];
      if rest[|rest| - 1] == ':' {
        assert head + ":" + Join(segments) + ":" == head + ":" + (Join(segments) + ":");
      }
    }
  }

  /** Joining a segment before others puts one ':' between them. */
  lemma JoinCons(head: string, segments: seq<string>)
    ensures segments == [] ==> Join([head] + segments) == head
    ensures segments != [] ==> Join([head] + segments) == head + ":" + Join(segments)
  {
    assert ([head] + segments)[1..] == segments;
  }

  /** A path whose first segment holds no ':' splits into that segment
      and the split of the rest. */
  lemma SplitAfterColonFree(head: string, rest: string)
    requires ':' !in head
    ensures SplitPath(head + ":" + rest) == [head] + SplitPath(rest)
  {
    var p := head + ":" + rest;
    assert forall k :: 0 <= k < |head| ==> p[k] == head[k];
    assert p[|head|] == ':';
    assert IndexOf(p, ':') == |head|;
    assert p[..|head|] == head;
    assert p[|head| + 1..] == rest;
  }

  /** Splitting a join gives the segments back, when no segment holds a ':'
      and the last one is not empty. */
  lemma {:induction false} JoinSplitRoundTrip(segments: seq<string>)
    requires forall k :: 0 <= k < |segments| ==> ':' !in segments[k]
    requires |segments| > 0 ==> segments[|segments| - 1] != []
    ensures SplitPath(Join(segments)) == segments
  {
    if |segments| == 1 {
      assert IndexOf(segments[0], ':') == -1;
    } else if |segments| > 1 {
      JoinSplitRoundTrip(segments[1..]);
      SplitAfterColonFree(segments[0], Join(segments[1..]));
      assert segments == [segments[0]] + segments[1..];
    }
  }

  /** A snapshot of the file system: the full names of the subdirectories
      of each directory. A name missing from the map is not a directory. */
  type DirTree = map<string, seq<string>>

  /** Every name the walk can meet: the seeds and every listed child. */
  function Universe(seeds: seq<string>, dirs: DirTree): set<string>
  {
    (set s | s in seeds) + (set d, c | d in dirs && c in dirs[d] :: c)
  }

  /** `name` is a seed or, when subdirectories are scanned, a child of one of
      the names in `earlier`. */
  predicate Justified(name: string, earlier: seq<string>, seeds: seq<string>, dirs: DirTree, scanSubdirs: bool)
  {
    name in seeds || (scanSubdirs && exists p :: p in earlier && p in dirs && name in dirs[p])
  }

  /** Each name in `order` is justified by the names listed before it. */
  predicate Derived(order: seq<string>, seeds: seq<string>, dirs: DirTree, scanSubdirs: bool)
  {
    forall i :: 0 <= i < |order| ==> Justified(order[i], order[..i], seeds, dirs, scanSubdirs)
  }

  predicate Distinct(order: seq<string>)
  {
    forall i, j :: 0 <= i < j < |order| ==> order[i] != order[j]
  }

  predicate ClosedUnder(names: set<string>, dirs: DirTree)
  {
    forall n, c :: n in names && n in dirs && c in dirs[n] ==> c in names
  }

  /** What holds of the queue, the set of names taken and the order they
      were taken in, each time the walk looks at the queue. */
  ghost predicate WalkInvariant(queue: seq<string>, names: set<string>, order: seq<string>,
                          seeds: seq<string>, dirs: DirTree, scanSubdirs: bool)
  {
    (forall q :: q in queue ==> q in Universe(seeds, dirs)) &&
    names <= Universe(seeds, dirs) &&
    (forall n :: n in names <==> n in order) &&
    Distinct(order) &&
    Derived(order, seeds, dirs, scanSubdirs) &&
    (forall q :: q in queue ==> Justified(q, order, seeds, dirs, scanSubdirs)) &&
    (forall s :: s in seeds ==> s in names || s in queue) &&
    (scanSubdirs ==> forall n, c :: n in names && n in dirs && c in dirs[n] ==> c in names || c in queue) &&
    (!scanSubdirs ==> forall n :: n in names ==> n in seeds)
  }

  lemma JustifiedExtends(name: string, earlier: seq<string>, more: seq<string>,
                         seeds: seq<string>, dirs: DirTree, scanSubdirs: bool)
    requires Justified(name, earlier, seeds, dirs, scanSubdirs)
    ensures Justified(name, earlier + more, seeds, dirs, scanSubdirs)
  {
    if name !in seeds {
      var p :| p in earlier && p in dirs && name in dirs[p];
      assert p in earlier + more;
    }
  }

  /** Dequeuing a name already taken keeps the invariant. */
  lemma WalkSkipStep(queue: seq<string>, names: set<string>, order: seq<string>,
                     seeds: seq<string>, dirs: DirTree, scanSubdirs: bool)
    requires WalkInvariant(queue, names, order, seeds, dirs, scanSubdirs)
    requires queue != [] && queue[0] in names
    ensures WalkInvariant(queue[1..], names, order, seeds, dirs, scanSubdirs)
  {
    assert forall q :: q in queue ==> q == queue[0] || q in queue[1..];
    assert Justified(queue[0], order, seeds, dirs, scanSubdirs);
  }

  /** Taking a new name, and queueing its children when subdirectories are
      scanned, keeps the invariant. */
  lemma WalkTakeStep(queue: seq<string>, names: set<string>, order: seq<string>,
                     seeds: seq<string>, dirs: DirTree, scanSubdirs: bool, queue': seq<string>)
    requires WalkInvariant(queue, names, order, seeds, dirs, scanSubdirs)
    requires queue != [] && queue[0] !in names
    requires queue' == queue[1..] + (if scanSubdirs && queue[0] in dirs then dirs[queue[0]] else [])
    ensures WalkInvariant(queue', names + {queue[0]}, order + [queue[0]], seeds, dirs, scanSubdirs)
  {
    TakeStaysInUniverse(queue, names, order, seeds, dirs, scanSubdirs, queue');
    TakeKeepsOrder(queue, names, order, seeds, dirs, scanSubdirs);
    TakeKeepsQueueJustified(queue, names, order, seeds, dirs, scanSubdirs, queue');
    TakeKeepsCoverage(queue, names, order, seeds, dirs, scanSubdirs, queue');
  }

  lemma TakeStaysInUniverse(queue: seq<string>, names: set<string>, order: seq<string>,
                            seeds: seq<string>, dirs: DirTree, scanSubdirs: bool, queue': seq<string>)
    requires WalkInvariant(queue, names, order, seeds, dirs, scanSubdirs)
    requires queue != []
    requires queue' == queue[1..] + (if scanSubdirs && queue[0] in dirs then dirs[queue[0]] else [])
    ensures forall q :: q in queue' ==> q in Universe(seeds, dirs)
    ensures names + {queue[0]} <= Universe(seeds, dirs)
  {
    var name := queue[0];
    assert forall q :: q in queue[1..] ==> q in queue;
    if scanSubdirs && name in dirs {
      assert forall q :: q in dirs[name] ==> q in Universe(seeds, dirs);
    }
  }

  lemma TakeKeepsOrder(queue: seq<string>, names: set<string>, order: seq<string>,
                       seeds: seq<string>, dirs: DirTree, scanSubdirs: bool)
    requires WalkInvariant(queue, names, order, seeds, dirs, scanSubdirs)
    requires queue != [] && queue[0] !in names
    ensures forall n :: n in names + {queue[0]} <==> n in order + [queue[0]]
    ensures Distinct(order + [queue[0]])
    ensures Derived(order + [queue[0]], seeds, dirs, scanSubdirs)
  {
    var order' := order + [queue[0]];
    forall i | 0 <= i < |order'|
      ensures Justified(order'[i], order'[..i], seeds, dirs, scanSubdirs)
    {
      if i < |order| {
        assert order'[..i] == order[..i];
      } else {
        assert order'[..i] == order;
      }
    }
  }

  lemma TakeKeepsQueueJustified(queue: seq<string>, names: set<string>, order: seq<string>,
                                seeds: seq<string>, dirs: DirTree, scanSubdirs: bool, queue': seq<string>)
    requires WalkInvariant(queue, names, order, seeds, dirs, scanSubdirs)
    requires queue != []
    requires queue' == queue[1..] + (if scanSubdirs && queue[0] in dirs then dirs[queue[0]] else [])
    ensures forall q :: q in queue' ==> Justified(q, order + [queue[0]], seeds, dirs, scanSubdirs)
  {
    var name := queue[0];
    var order' := order + [name];
    forall q | q in queue'
      ensures Justified(q, order', seeds, dirs, scanSubdirs)
    {
      if q in queue[1..] {
        assert q in queue;
        JustifiedExtends(q, order, [name], seeds, dirs, scanSubdirs);
      } else {
        assert name in order';
      }
    }
  }

  lemma TakeKeepsCoverage(queue: seq<string>, names: set<string>, order: seq<string>,
                          seeds: seq<string>, dirs: DirTree, scanSubdirs: bool, queue': seq<string>)
    requires WalkInvariant(queue, names, order, seeds, dirs, scanSubdirs)
    requires queue != []
    requires queue' == queue[1..] + (if scanSubdirs && queue[0] in dirs then dirs[queue[0]] else [])
    ensures forall s :: s in seeds ==> s in names + {queue[0]} || s in queue'
    ensures scanSubdirs ==> forall n, c :: n in names + {queue[0]} && n in dirs && c in dirs[n] ==>
      c in names + {queue[0]} || c in queue'
    ensures !scanSubdirs ==> forall n :: n in names + {queue[0]} ==> n in seeds
  {
    assert forall q :: q in queue ==> q == queue[0] || q in queue[1..];
    assert Justified(queue[0], order, seeds, dirs, scanSubdirs);
  }

  /** The queue of seeds starts the walk in a state where the invariant
      holds. */
  lemma WalkStart(seeds: seq<string>, dirs: DirTree, scanSubdirs: bool)
    ensures WalkInvariant(seeds, {}, [], seeds, dirs, scanSubdirs)
  {
  }

  /** When the queue runs dry, the names taken are the seeds and, when
      subdirectories are scanned, everything below them. */
  lemma WalkEnd(names: set<string>, order: seq<string>, seeds: seq<string>, dirs: DirTree, scanSubdirs: bool)
    requires WalkInvariant([], names, order, seeds, dirs, scanSubdirs)
    ensures forall s :: s in seeds ==> s in names
    ensures scanSubdirs ==> ClosedUnder(names, dirs)
    ensures !scanSubdirs ==> names == set s | s in seeds
  {    if !scanSubdirs {
      var seedSet := set s | s in seeds;
      assert forall n :: n in names ==> n in seedSet;
      assert forall n :: n in seedSet ==> n in names;
    }
  }

  /** A name still queued lies in the universe of the walk. */
  lemma QueuedInUniverse(queue: seq<string>, names: set<string>, order: seq<string>,
                         seeds: seq<string>, dirs: DirTree, scanSubdirs: bool)
    requires WalkInvariant(queue, names, order, seeds, dirs, scanSubdirs)
    requires queue != []
    ensures queue[0] in Universe(seeds, dirs)
    ensures names <= Universe(seeds, dirs)
  {
  }

  lemma TakingShrinksRemainder(universe: set<string>, names: set<string>, name: string)
    requires name in universe && name !in names
    ensures |universe - (names + {name})| < |universe - names|
  {
    var remainder := universe - names;
    assert name in remainder;
    assert universe - (names + {name}) == remainder - {name};
    assert |remainder - {name}| == |remainder| - 1;
  }

  /** `collectDirNames`: the directories named in the search path and, when
      subdirectories are scanned, everything below them, each taken once. */
  method CollectDirNames(path: string, scanSubdirs: bool, dirs: DirTree)
    returns (nameSet: set<string>, ghost order: seq<string>)
    ensures forall s :: s in SplitPath(path) ==> s in nameSet
    ensures scanSubdirs ==> ClosedUnder(nameSet, dirs)
    ensures !scanSubdirs ==> nameSet == set s | s in SplitPath(path)
    ensures forall n :: n in nameSet <==> n in order
    ensures Distinct(order)
    ensures Derived(order, SplitPath(path), dirs, scanSubdirs)
  {
    var queue := SplitSearchPath(path);
    ghost var seeds := queue;
    ghost var universe := Universe(seeds, dirs);
    nameSet := {};
    order := [];
    WalkStart(seeds, dirs, scanSubdirs);
    while queue != []
      invariant WalkInvariant(queue, nameSet, order, seeds, dirs, scanSubdirs)
      decreases |universe - nameSet|, |queue|
    {
      ghost var before := queue;
      var name := queue[0];
      queue := queue[1..];
      if name in nameSet {
        WalkSkipStep(before, nameSet, order, seeds, dirs, scanSubdirs);
      } else {
        if scanSubdirs && name in dirs {
          queue := queue + dirs[name];
        } else {
          assert queue + [] == queue;
        }
        WalkTakeStep(before, nameSet, order, seeds, dirs, scanSubdirs, queue);
        QueuedInUniverse(before, nameSet, order, seeds, dirs, scanSubdirs);
        TakingShrinksRemainder(universe, nameSet, name);
        nameSet := nameSet + {name};
        order := order + [name];
      }
    }
    WalkEnd(nameSet, order, seeds, dirs, scanSubdirs);
  }

  /** The walk takes nothing it need not: its names lie in every set that
      holds the seeds and, when subdirectories are scanned, is closed under
      taking children. */
  lemma {:induction false} DerivedNamesAreReachable(order: seq<string>, seeds: seq<string>, dirs: DirTree,
                                                  scanSubdirs: bool, names: set<string>)
    requires Derived(order, seeds, dirs, scanSubdirs)
    requires forall s :: s in seeds ==> s in names
    requires scanSubdirs ==> ClosedUnder(names, dirs)
    ensures forall n :: n in order ==> n in names
  {
    if |order| > 0 {
      var prefix := order[..|order| - 1];
      DerivedPrefix(order, seeds, dirs, scanSubdirs);
      DerivedNamesAreReachable(prefix, seeds, dirs, scanSubdirs, names);
      var last := order[|order| - 1];
      assert Justified(last, prefix, seeds, dirs, scanSubdirs);
      assert order == prefix + [last];
    }
  }

  /** Dropping the last name keeps the order derived. */
  lemma DerivedPrefix(order: seq<string>, seeds: seq<string>, dirs: DirTree, scanSubdirs: bool)
    requires Derived(order, seeds, dirs, scanSubdirs) && |order| > 0
    ensures Derived(order[..|order| - 1], seeds, dirs, scanSubdirs)
  {
    var prefix := order[..|order| - 1];
    forall i | 0 <= i < |prefix|
      ensures Justified(prefix[i], prefix[..i], seeds, dirs, scanSubdirs)
    {
      assert prefix[i] == order[i] && prefix[..i] == order[..i];
    }
  }
}
