/** The frontier of the statistics pass: a Python dict from a line's first column (a
    file path) to the number of comma-separated package tokens after its last space,
    modelled as the sequence of its items in insertion order, together with
    the two dict operations the pass uses (`update` with one key, `popitem`) and
    `ContentParser._sort`, the stable sort by count, largest first. */
module Leaderboard {
  import opened Bytes

  /** One dict item: a name (the stripped first column) and its count. */
  datatype Entry = Entry(name: seq<byte>, files: nat)

  /** The items of a dict, in its iteration order. */
  type Frontier = seq<Entry>

  function Names(f: Frontier): set<seq<byte>> {
    set i | 0 <= i < |f| :: f[i].name
  }

  lemma NamesCons(e: Entry, f: Frontier)
    ensures Names([e] + f) == {e.name} + Names(f)
  {
    var g := [e] + f;
    forall n | n in Names(g) ensures n in {e.name} + Names(f) {
      var i :| 0 <= i < |g| && g[i].name == n;
      if i > 0 { assert f[i - 1].name == n; }
    }
    forall n | n in Names(f) ensures n in Names(g) {
      var i :| 0 <= i < |f| && f[i].name == n;
      assert g[i + 1].name == n;
    }
    assert g[0].name == e.name;
  }

  /** Dict keys are distinct. */
  predicate DistinctNames(f: Frontier) {
    forall i, j | 0 <= i < j < |f| :: f[i].name != f[j].name
  }

  /** Counts are non-increasing from first to last. */
  predicate SortedDesc(f: Frontier) {
    forall i, j | 0 <= i < j < |f| :: f[i].files >= f[j].files
  }

  /** The items whose count is `v`, in their order in `f`. */
  function WithFiles(f: Frontier, v: nat): Frontier {
    if f == [] then []
    else (if f[0].files == v then [f[0]] else []) + WithFiles(f[1..], v)
  }

  /** `WithFiles` selects items of `f` with count `v`. */
  lemma {:induction false} WithFilesSub(f: Frontier, v: nat)
    ensures forall e | e in WithFiles(f, v) :: e in f && e.files == v
  {
    if f != [] {
      WithFilesSub(f[1..], v);
      assert f == [f[0]] + f[1..];
    }
  }

  // ---------------------------------------------------------------------------
  // ContentParser._sort

  /** The insertion step of `Sort`: places `x` in front of the first item whose count
      is not larger than its own. */
  function Insert(x: Entry, s: Frontier): (r: Frontier)
    ensures |r| == |s| + 1
  {
    if s == [] || s[0].files <= x.files then [x] + s
    else [s[0]] + Insert(x, s[1..])
  }

  /** `dict(sorted(items, key=count, reverse=True))`: Python's sort is stable, also
      with `reverse=True`, so items of equal count keep their relative order. */
  function Sort(f: Frontier): (r: Frontier)
    ensures |r| == |f| && SortedDesc(r)
  {
    if f == [] then []
    else
      var rest := Sort(f[1..]);
      InsertCount(f[0], rest);
      InsertSorted(f[0], rest);
      Insert(f[0], rest)
  }

  /** `_sort` rearranges the items: the same items, each as often. */
  lemma {:induction false} SortPermutes(f: Frontier)
    ensures multiset(Sort(f)) == multiset(f)
  {
    if f != [] {
      SortPermutes(f[1..]);
      InsertCount(f[0], Sort(f[1..]));
      assert f == [f[0]] + f[1..];
    }
  }

  /** `_sort` is stable: the items of each count keep their relative order. */
  lemma {:induction false} SortStable(f: Frontier)
    ensures forall v :: WithFiles(Sort(f), v) == WithFiles(f, v)
  {
    if f != [] {
      SortStable(f[1..]);
      var rest := Sort(f[1..]);
      forall v ensures WithFiles(Sort(f), v) == WithFiles(f, v) {
        InsertWithFiles(f[0], rest, v);
        assert ([f[0]] + rest)[1..] == rest;
        assert f == [f[0]] + f[1..];
      }
    }
  }

  /** `_sort` keeps the keys, and keeps them distinct. */
  lemma {:induction false} SortNames(f: Frontier)
    ensures Names(Sort(f)) == Names(f) && (DistinctNames(f) ==> DistinctNames(Sort(f)))
  {
    if f != [] {
      SortNames(f[1..]);
      var rest := Sort(f[1..]);
      InsertNames(f[0], rest);
      assert f == [f[0]] + f[1..];
      NamesCons(f[0], f[1..]);
      if DistinctNames(f) {
        assert DistinctNames(f[1..]) by {
          forall i, j | 0 <= i < j < |f| - 1 ensures f[1..][i].name != f[1..][j].name {
            assert f[1..][i] == f[i + 1] && f[1..][j] == f[j + 1];
          }
        }
        assert f[0].name !in Names(f[1..]) by {
          forall i | 0 <= i < |f| - 1 ensures f[1..][i].name != f[0].name {
            assert f[1..][i] == f[i + 1];
          }
        }
      }
    }
  }

  lemma {:induction false} InsertNames(x: Entry, s: Frontier)
    ensures Names(Insert(x, s)) == {x.name} + Names(s)
    ensures DistinctNames(s) && x.name !in Names(s) ==> DistinctNames(Insert(x, s))
  {
    NamesCons(x, s);
    if !(s == [] || s[0].files <= x.files) {
      InsertNames(x, s[1..]);
      assert s == [s[0]] + s[1..];
      NamesCons(s[0], s[1..]);
      NamesCons(s[0], Insert(x, s[1..]));
    }
  }

  lemma {:induction false} InsertCount(x: Entry, s: Frontier)
    ensures |Insert(x, s)| == |s| + 1 && multiset(Insert(x, s)) == multiset([x] + s)
  {
    if !(s == [] || s[0].files <= x.files) {
      InsertCount(x, s[1..]);
      assert s == [s[0]] + s[1..];
    }
  }

  lemma {:induction false} InsertSorted(x: Entry, s: Frontier)
    requires SortedDesc(s)
    ensures SortedDesc(Insert(x, s))
  {
    if s == [] || s[0].files <= x.files {
      forall e | e in s ensures x.files >= e.files {
        var k :| 0 <= k < |s| && s[k] == e;
        assert k == 0 || s[0].files >= s[k].files;
      }
      ConsSorted(x, s);
    } else {
      var t := s[1..];
      assert SortedDesc(t) by {
        forall i, j | 0 <= i < j < |t| ensures t[i].files >= t[j].files {
          assert t[i] == s[i + 1] && t[j] == s[j + 1];
        }
      }
      InsertSorted(x, t);
      InsertMembers(x, t);
      forall e | e in Insert(x, t) ensures s[0].files >= e.files {
        if e != x {
          var k :| 0 <= k < |t| && t[k] == e;
          assert s[k + 1] == e;
        }
      }
      ConsSorted(s[0], Insert(x, t));
    }
  }

  /** Every item of an insertion is the inserted one or one of the frontier's. */
  lemma {:induction false} InsertMembers(x: Entry, s: Frontier)
    ensures forall e | e in Insert(x, s) :: e == x || e in s
  {
    if !(s == [] || s[0].files <= x.files) {
      InsertMembers(x, s[1..]);
      forall e | e in Insert(x, s) ensures e == x || e in s {
        if e != s[0] {
          assert e in Insert(x, s[1..]);
          if e != x {
            assert e in s[1..];
          }
        }
      }
    }
  }

  /** An item no smaller than any of a sorted frontier can go in front of it. */
  lemma ConsSorted(e: Entry, t: Frontier)
    requires SortedDesc(t) && forall x | x in t :: e.files >= x.files
    ensures SortedDesc([e] + t)
  {
    var r := [e] + t;
    forall i, j | 0 <= i < j < |r| ensures r[i].files >= r[j].files {
      assert r[j] == t[j - 1];
      if i > 0 {
        assert r[i] == t[i - 1];
      } else {
        assert t[j - 1] in t;
      }
    }
  }

  lemma {:induction false} InsertWithFiles(x: Entry, s: Frontier, v: nat)
    ensures WithFiles(Insert(x, s), v) == WithFiles([x] + s, v)
  {
    if !(s == [] || s[0].files <= x.files) {
      InsertWithFiles(x, s[1..], v);
      var r := Insert(x, s);
      var rest := WithFiles(s[1..], v);
      var ws := if s[0].files == v then [s[0]] else [];
      var wx := if x.files == v then [x] else [];
      assert r[1..] == Insert(x, s[1..]);
      assert ([x] + s[1..])[1..] == s[1..] && ([x] + s)[1..] == s;
      assert WithFiles(r, v) == ws + (wx + rest);
      assert WithFiles([x] + s, v) == wx + (ws + rest);
      assert ws == [] || wx == [];
    }
  }

  /** Sorting is the identity on a frontier that is already in order. */
  lemma {:induction false} SortSorted(f: Frontier)
    requires SortedDesc(f)
    ensures Sort(f) == f
  {
    if f != [] {
      SortSorted(f[1..]);
      assert f == [f[0]] + f[1..];
    }
  }

  /** Sorting a frontier with one item in front inserts that item into the sorted rest. */
  lemma SortCons(x: Entry, t: Frontier)
    ensures Sort([x] + t) == Insert(x, Sort(t))
  {
    assert ([x] + t)[1..] == t;
  }

  /** `Insert` passes over a prefix of items whose counts are all larger. */
  lemma {:induction false} InsertPast(x: Entry, a: Frontier, b: Frontier)
    requires forall e | e in a :: e.files > x.files
    ensures Insert(x, a + b) == a + Insert(x, b)
  {
    if a != [] {
      assert a[0] in a && (a + b)[0] == a[0] && (a + b)[1..] == a[1..] + b;
      InsertPast(x, a[1..], b);
      assert Insert(x, a + b) == [a[0]] + Insert(x, a[1..] + b);
      assert a + Insert(x, b) == [a[0]] + (a[1..] + Insert(x, b));
    } else {
      assert a + b == b;
    }
  }

  /** An item with a larger count than every item of a sorted frontier, put last, is
      sorted to the front and the rest keep their order. */
  lemma {:induction false} SortAppendLargest(a: Frontier, x: Entry)
    requires SortedDesc(a) && forall e | e in a :: e.files < x.files
    ensures Sort(a + [x]) == [x] + a
  {
    if a == [] {
      assert [] + [x] == [x];
    } else {
      assert a + [x] == [a[0]] + (a[1..] + [x]);
      SortCons(a[0], a[1..] + [x]);
      SortAppendLargest(a[1..], x);
      assert a == [a[0]] + a[1..];
      assert ([x] + a[1..])[1..] == a[1..];
    }
  }

  /** Any two orderings with non-increasing counts that list the items of each count
      in the same order are equal: so `Sort` is exactly Python's stable descending sort. */
  lemma {:induction false} StableSortUnique(a: Frontier, b: Frontier)
    requires SortedDesc(a) && SortedDesc(b)
    requires forall v :: WithFiles(a, v) == WithFiles(b, v)
    ensures a == b
  {
    if a == [] || b == [] {
      if a != [] {
        WithFilesHead(a);
        assert false;
      } else if b != [] {
        WithFilesHead(b);
        assert false;
      }
    } else {
      WithFilesHead(a);
      WithFilesHead(b);
      var m, n := a[0].files, b[0].files;
      assert b[0] in WithFiles(a, n);
      assert a[0] in WithFiles(b, m);
      WithFilesMember(a, b[0]);
      WithFilesMember(b, a[0]);
      assert m == n;
      assert a[0] == WithFiles(a, m)[0] == WithFiles(b, m)[0] == b[0];
      forall v ensures WithFiles(a[1..], v) == WithFiles(b[1..], v) {
        var p := if v == m then [a[0]] else [];
        assert WithFiles(a, v) == p + WithFiles(a[1..], v);
        assert WithFiles(b, v) == p + WithFiles(b[1..], v);
        assert WithFiles(a[1..], v) == (p + WithFiles(a[1..], v))[|p|..];
        assert WithFiles(b[1..], v) == (p + WithFiles(b[1..], v))[|p|..];
      }
      StableSortUnique(a[1..], b[1..]);
      assert a == [a[0]] + a[1..] && b == [b[0]] + b[1..];
    }
  }

  lemma WithFilesHead(f: Frontier)
    requires f != []
    ensures WithFiles(f, f[0].files) == [f[0]] + WithFiles(f[1..], f[0].files)
  {
  }

  lemma {:induction false} WithFilesMember(f: Frontier, e: Entry)
    requires SortedDesc(f) && f != [] && e in WithFiles(f, e.files)
    ensures e.files <= f[0].files
  {
    WithFilesSub(f, e.files);
    assert e in f;
    var i :| 0 <= i < |f| && f[i] == e;
    assert f[0].files >= f[i].files || i == 0;
  }

  // ---------------------------------------------------------------------------
  // dict.update({name: files}) and dict.popitem()

  /** `d.update({name: files})`: an existing key keeps its place and takes the new
      count (the old one is overwritten, not added to); a new key goes last. */
  function Update(f: Frontier, name: seq<byte>, files: nat): (r: Frontier)
    ensures |f| <= |r| <= |f| + 1
    ensures name in Names(f) && DistinctNames(f) ==>
      |r| == |f| && forall i | 0 <= i < |f| :: r[i] == (if f[i].name == name then Entry(name, files) else f[i])
    ensures name !in Names(f) ==> r == f + [Entry(name, files)]
  {
    if f == [] then [Entry(name, files)]
    else if f[0].name == name then [Entry(name, files)] + f[1..]
    else
      assert f == [f[0]] + f[1..];
      NamesCons(f[0], f[1..]);
      [f[0]] + Update(f[1..], name, files)
  }

  /** After `update` the keys are the old ones and `name`, still distinct, and the items
      are the old ones and the new item. */
  lemma UpdateNames(f: Frontier, name: seq<byte>, files: nat)
    requires DistinctNames(f)
    ensures var r := Update(f, name, files);
      && Names(r) == Names(f) + {name}
      && DistinctNames(r)
      && Entry(name, files) in r
      && forall e | e in r :: e in f || e == Entry(name, files)
  {
    if name in Names(f) {
      UpdateExistingNames(f, name, files);
    } else {
      UpdateNewNames(f, name, files);
    }
  }

  lemma UpdateExistingNames(f: Frontier, name: seq<byte>, files: nat)
    requires DistinctNames(f) && name in Names(f)
    ensures var r := Update(f, name, files);
      && Names(r) == Names(f) + {name}
      && DistinctNames(r)
      && Entry(name, files) in r
      && forall e | e in r :: e in f || e == Entry(name, files)
  {
    var r := Update(f, name, files);
    assert forall i | 0 <= i < |r| :: r[i].name == f[i].name;
    var k :| 0 <= k < |f| && f[k].name == name;
    assert r[k] == Entry(name, files);
    forall n | n in Names(r) ensures n in Names(f) {
      var i :| 0 <= i < |r| && r[i].name == n;
    }
    forall n | n in Names(f) ensures n in Names(r) {
      var i :| 0 <= i < |f| && f[i].name == n;
    }
    forall e | e in r ensures e in f || e == Entry(name, files) {
      var i :| 0 <= i < |r| && r[i] == e;
    }
    forall i, j | 0 <= i < j < |r| ensures r[i].name != r[j].name {
      assert f[i].name != f[j].name;
    }
  }

  lemma UpdateNewNames(f: Frontier, name: seq<byte>, files: nat)
    requires DistinctNames(f) && name !in Names(f)
    ensures var r := Update(f, name, files);
      && Names(r) == Names(f) + {name}
      && DistinctNames(r)
      && Entry(name, files) in r
      && forall e | e in r :: e in f || e == Entry(name, files)
  {
    var r := Update(f, name, files);
    assert r == f + [Entry(name, files)];
    forall n | n in Names(r) ensures n in Names(f) + {name} {
      var i :| 0 <= i < |r| && r[i].name == n;
      if i < |f| { assert r[i] == f[i]; }
    }
    forall n | n in Names(f) ensures n in Names(r) {
      var i :| 0 <= i < |f| && f[i].name == n;
      assert r[i] == f[i];
    }
    assert r[|f|] == Entry(name, files);
    forall i, j | 0 <= i < j < |r| ensures r[i].name != r[j].name {
      if j == |f| { assert r[i] == f[i]; }
    }
  }

  /** `d.popitem()`: removes the last item in iteration order. */
  function PopLast(f: Frontier): (r: Frontier)
    requires f != []
    ensures f == r + [f[|f| - 1]]
  {
    f[..|f| - 1]
  }

  /** A frontier of distinct names has as many items as names. */
  lemma {:induction false} NamesCardinality(f: Frontier)
    requires DistinctNames(f)
    ensures |Names(f)| == |f|
  {
    if f != [] {
      NamesCardinality(f[1..]);
      assert f == [f[0]] + f[1..];
      NamesCons(f[0], f[1..]);
      assert f[0].name !in Names(f[1..]);
    }
  }
}
