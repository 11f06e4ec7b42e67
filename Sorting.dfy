/** The orderings of Zip.sortByName, sortByPath, sortByType and sortByDir,
    and a sort that puts the entry list in that order (Collections.sort is a
    stable sort; an insertion sort that inserts after equal elements is one). */
module Sorting {
  import opened PathNames
  import opened Listing

  /** Java's String.compareTo: the difference of the first differing
      characters, or else of the lengths. */
  function CompareStrings(a: string, b: string): (r: int)
    ensures r == 0 <==> a == b
  {
    if |a| == 0 || |b| == 0 then |a| - |b|
    else if a[0] != b[0] then a[0] as int - b[0] as int
    else
      assert a == [a[0]] + a[1..] && b == [b[0]] + b[1..];
      CompareStrings(a[1..], b[1..])
  }

  lemma {:induction false} CompareAntisymmetric(a: string, b: string)
    ensures CompareStrings(b, a) == -CompareStrings(a, b)
  {
    if |a| > 0 && |b| > 0 && a[0] == b[0] {
      CompareAntisymmetric(a[1..], b[1..]);
    }
  }

  lemma {:induction false} CompareTransitive(a: string, b: string, c: string)
    requires CompareStrings(a, b) <= 0 && CompareStrings(b, c) <= 0
    ensures CompareStrings(a, c) <= 0
  {
    if |a| > 0 && |b| > 0 && |c| > 0 && a[0] == b[0] && b[0] == c[0] {
      CompareTransitive(a[1..], b[1..], c[1..]);
    }
  }

  /** Which column the entries are sorted by, and in which direction. */
  datatype Comparator =
    | ByName(reverse: bool)
    | ByPath(reverse: bool)
    | ByType(reverse: bool)
    | DirsFirst(reverse: bool)

  /** The string a key comparator compares. */
  function Key(c: Comparator, e: Entry): (r: string)
    requires !c.DirsFirst?
    ensures c.ByName? ==> forall i :: 0 <= i < |r| ==> r[i] != '/'
    ensures c.ByPath? ==> |r| > 0 && r[0] == '/'
    ensures c.ByType? ==> (r == DirectoryLabel <==> IsDirectory(e))
  {
    match c
    case ByName(_) => LeafName(e.name)
    case ByPath(_) => EntryPath(e.name)
    case ByType(_) => TypeLabel(e.name)
  }

  /** The comparators' compare(o1, o2); `reverse` swaps the operands of the
      final comparison. sortByDir's comparator only tells directories from files. */
  function Compare(c: Comparator, a: Entry, b: Entry): int {
    if c.DirsFirst? then
      if IsDirectory(a) == IsDirectory(b) then 0
      else if c.reverse then (if IsDirectory(b) && !IsDirectory(a) then -1 else 1)
      else (if IsDirectory(a) && !IsDirectory(b) then -1 else 1)
    else if c.reverse then CompareStrings(Key(c, b), Key(c, a))
    else CompareStrings(Key(c, a), Key(c, b))
  }

  lemma CompareSwap(c: Comparator, a: Entry, b: Entry)
    ensures Compare(c, b, a) == -Compare(c, a, b)
  {
    if !c.DirsFirst? {
      CompareAntisymmetric(Key(c, a), Key(c, b));
    }
  }

  lemma CompareChains(c: Comparator, a: Entry, b: Entry, x: Entry)
    requires Compare(c, a, b) <= 0 && Compare(c, b, x) <= 0
    ensures Compare(c, a, x) <= 0
  {
    if !c.DirsFirst? {
      if c.reverse {
        CompareTransitive(Key(c, x), Key(c, b), Key(c, a));
      } else {
        CompareTransitive(Key(c, a), Key(c, b), Key(c, x));
      }
    }
  }

  /** sortByDir ties exactly the entries of the same kind and, unless
      reversed, puts a directory strictly ahead of a file; the other
      comparators tie exactly the entries with equal keys. */
  lemma CompareMeaning(c: Comparator, a: Entry, b: Entry)
    ensures var r := Compare(c, a, b);
      && (c.DirsFirst? ==> (r == 0 <==> IsDirectory(a) == IsDirectory(b)))
      && (c.DirsFirst? ==>
            (r < 0 <==> if c.reverse then IsDirectory(b) && !IsDirectory(a) else IsDirectory(a) && !IsDirectory(b)))
      && (!c.DirsFirst? ==> (r == 0 <==> Key(c, a) == Key(c, b)))
  {
  }

  /** No entry is placed before one that the comparator puts strictly ahead of it. */
  ghost predicate Ordered(c: Comparator, s: seq<Entry>) {
    forall i, j :: 0 <= i < j < |s| ==> Compare(c, s[i], s[j]) <= 0
  }

  /** Inserts `x` after every element that is not greater than it (stable). */
  function Insert(c: Comparator, x: Entry, s: seq<Entry>): (r: seq<Entry>)
    ensures multiset(r) == multiset(s) + multiset{x}
  {
    if |s| == 0 then [x]
    else if Compare(c, x, s[0]) < 0 then [x] + s
    else
      assert s == [s[0]] + s[1..];
      [s[0]] + Insert(c, x, s[1..])
  }

  lemma {:induction false} InsertKeepsOrder(c: Comparator, x: Entry, s: seq<Entry>)
    requires Ordered(c, s)
    ensures Ordered(c, Insert(c, x, s))
  {
    if |s| > 0 {
      if Compare(c, x, s[0]) < 0 {
        InsertAtFront(c, x, s);
      } else {
        InsertKeepsOrder(c, x, s[1..]);
        InsertAfterHead(c, x, s);
      }
    }
  }

  /** `x` placed before a head it is strictly less than stays ahead of everything. */
  lemma InsertAtFront(c: Comparator, x: Entry, s: seq<Entry>)
    requires Ordered(c, s) && |s| > 0 && Compare(c, x, s[0]) < 0
    ensures Ordered(c, [x] + s)
  {
    var r := [x] + s;
    forall j | 0 < j < |r|
      ensures Compare(c, r[0], r[j]) <= 0
    {
      if j > 1 {
        CompareChains(c, x, s[0], s[j - 1]);
      }
    }
  }

  /** The head stays ahead of the ordered insertion into the tail. */
  lemma InsertAfterHead(c: Comparator, x: Entry, s: seq<Entry>)
    requires Ordered(c, s) && |s| > 0 && Compare(c, x, s[0]) >= 0
    requires Ordered(c, Insert(c, x, s[1..]))
    ensures Ordered(c, [s[0]] + Insert(c, x, s[1..]))
  {
    var t := Insert(c, x, s[1..]);
    CompareSwap(c, x, s[0]);
    forall j | 0 <= j < |t|
      ensures Compare(c, s[0], t[j]) <= 0
    {
      assert t[j] in multiset(t);
      if t[j] != x {
        assert t[j] in s[1..];
      }
    }
  }

  /** The entry list rearranged by the comparator. */
  function Sort(c: Comparator, s: seq<Entry>): (r: seq<Entry>)
    ensures multiset(r) == multiset(s)
    decreases |s|
  {
    if |s| == 0 then []
    else
      var n := |s| - 1;
      assert s == s[..n] + [s[n]];
      Insert(c, s[n], Sort(c, s[..n]))
  }

  lemma {:induction false} SortOrders(c: Comparator, s: seq<Entry>)
    ensures Ordered(c, Sort(c, s))
    decreases |s|
  {
    if |s| > 0 {
      var n := |s| - 1;
      SortOrders(c, s[..n]);
      InsertKeepsOrder(c, s[n], Sort(c, s[..n]));
    }
  }

  /** The sorted list holds the same entries, each as often, in comparator order. */
  lemma SortIsOrderedPermutation(c: Comparator, s: seq<Entry>)
    ensures multiset(Sort(c, s)) == multiset(s)
    ensures Ordered(c, Sort(c, s))
  {
    SortOrders(c, s);
  }

  /** sortByDir ordering: unless reversed, no file precedes a directory. */
  lemma DirsFirstSeparates(s: seq<Entry>, reverse: bool, i: int, j: int)
    requires Ordered(DirsFirst(reverse), s)
    requires 0 <= i < j < |s|
    ensures !reverse ==> !(!IsDirectory(s[i]) && IsDirectory(s[j]))
    ensures reverse ==> !(IsDirectory(s[i]) && !IsDirectory(s[j]))
  {
    assert Compare(DirsFirst(reverse), s[i], s[j]) <= 0;
  }
}
