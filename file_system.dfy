/**
 * The directory tree the analyser walks, as a value: each entry is what
 * `os.path.isdir` / `os.path.isfile` find at its path, a directory carries
 * what `os.listdir` returns for it (in the filesystem's own order), and a
 * file carries what reading it yields. Also `os.path.join`,
 * `os.path.basename` and `sorted` over the listing.
 */
module FileSystem {
  import opened Wrappers
  import opened PyStr
  import opened NameOrder
  import opened SyntaxTree

  /**
   * One file as `__analyse_file` meets it: its text (`None` when opening or
   * reading raised), its modification time in ISO form (`None` when
   * `os.path.getmtime` raised), what `ast.parse` makes of the text, and the
   * wall-clock time in ISO form used when the analysis fails.
   */
  datatype FileData = FileData(content: Option<string>, modified: Option<string>, parse: ParseOutcome, now: string)

  /** A directory entry: a directory, a regular file, or neither (a socket, a dangling link). */
  datatype Entry =
    | Dir(name: string, listing: Listing)
    | File(name: string, data: FileData)
    | Special(name: string)

  /** `os.listdir` of a directory: its entries, or an exception (permission denied, ...). */
  datatype Listing = Listed(entries: seq<Entry>) | Unlistable

  /** `os.path.join(dir, name)` on POSIX. */
  function JoinPath(dir: string, name: string): (p: string)
    ensures EndsWith(p, name)
    ensures StartsWith(name, "/") ==> p == name
    ensures !StartsWith(name, "/") ==> StartsWith(p, dir) && |dir| + |name| <= |p| <= |dir| + 1 + |name|
    ensures !StartsWith(name, "/") && dir != [] ==> p[|p| - |name| - 1] == '/'
    ensures !StartsWith(name, "/") ==> (|p| == |dir| + |name| <==> dir == [] || EndsWith(dir, "/"))
  {
    if StartsWith(name, "/") then name
    else if dir == [] || EndsWith(dir, "/") then dir + name
    else dir + "/" + name
  }

  /** `os.path.basename(p)` on POSIX: what follows the last `/`. */
  function Basename(p: string): (b: string)
    ensures '/' !in b
    ensures EndsWith(p, b)
    ensures b == p || p[|p| - |b| - 1] == '/'
  {
    if p == [] || p[|p| - 1] == '/' then []
    else
      var b := Basename(p[..|p| - 1]);
      assert p[|p| - 1 - |b|..] == p[..|p| - 1][|p| - 1 - |b|..] + [p[|p| - 1]];
      b + [p[|p| - 1]]
  }

  /** The base name of a path built by joining a plain entry name is that name. */
  lemma BasenameOfJoin(dir: string, name: string)
    requires '/' !in name
    ensures Basename(JoinPath(dir, name)) == name
  {
    assert !StartsWith(name, "/") by {
      if |name| >= 1 {
        assert name[..1][0] == name[0];
      }
    }
    if dir == [] || EndsWith(dir, "/") {
      assert JoinPath(dir, name) == dir + name;
      assert dir != [] ==> dir[|dir| - 1] == dir[|dir| - 1..][0];
      BasenameAfterSlash(dir, name);
    } else {
      assert JoinPath(dir, name) == (dir + "/") + name;
      BasenameAfterSlash(dir + "/", name);
    }
  }

  lemma {:induction false} BasenameAfterSlash(pre: string, name: string)
    requires pre == [] || pre[|pre| - 1] == '/'
    requires '/' !in name
    ensures Basename(pre + name) == name
  {
    if name == [] {
      assert pre + name == pre;
    } else {
      var init := name[..|name| - 1];
      var last := name[|name| - 1];
      BasenameAfterSlash(pre, init);
      assert last in name;
      assert (pre + name)[|pre + name| - 1] == last;
      assert (pre + name)[..|pre + name| - 1] == pre + init;
      assert Basename(pre + name) == Basename(pre + init) + [last];
      assert init + [last] == name;
    }
  }

  predicate SortedByName(s: seq<Entry>) {
    forall i, j :: 0 <= i < j < |s| ==> NameLe(s[i].name, s[j].name)
  }

  /** No two entries of a listing share a name, as in every real directory. */
  predicate DistinctNames(s: seq<Entry>) {
    forall i, j :: 0 <= i < j < |s| ==> s[i].name != s[j].name
  }

  /** Insertion of one entry into a listing sorted by name. */
  function Insert(x: Entry, s: seq<Entry>): (r: seq<Entry>)
    ensures multiset(r) == multiset(s) + multiset{x}
  {
    if s == [] then [x]
    else if NameLe(x.name, s[0].name) then [x] + s
    else
      assert s == [s[0]] + s[1..];
      [s[0]] + Insert(x, s[1..])
  }

  lemma {:induction false} InsertSorted(x: Entry, s: seq<Entry>)
    requires SortedByName(s)
    ensures SortedByName(Insert(x, s))
  {
    if s == [] {
    } else if NameLe(x.name, s[0].name) {
      forall j | 0 <= j < |s| ensures NameLe(x.name, s[j].name) {
        if j > 0 {
          NameLeTransitive(x.name, s[0].name, s[j].name);
        }
      }
      ConsSorted(x, s);
    } else {
      NameLeTotal(x.name, s[0].name);
      InsertSorted(x, s[1..]);
      InsertBelow(x, s[1..], s[0].name);
      ConsSorted(s[0], Insert(x, s[1..]));
    }
  }

  /** A head named at or below every name of a sorted listing keeps it sorted. */
  lemma ConsSorted(h: Entry, t: seq<Entry>)
    requires SortedByName(t)
    requires forall j :: 0 <= j < |t| ==> NameLe(h.name, t[j].name)
    ensures SortedByName([h] + t)
  {
    var r := [h] + t;
    forall i, j | 0 <= i < j < |r| ensures NameLe(r[i].name, r[j].name) {
      assert r[j] == t[j - 1];
      if i > 0 {
        assert r[i] == t[i - 1];
      }
    }
  }

  /** A name at or below `x`'s and every name in `s` stays below every name after inserting. */
  lemma InsertBelow(x: Entry, s: seq<Entry>, b: string)
    requires NameLe(b, x.name)
    requires forall k :: 0 <= k < |s| ==> NameLe(b, s[k].name)
    ensures forall j :: 0 <= j < |Insert(x, s)| ==> NameLe(b, Insert(x, s)[j].name)
  {
    var t := Insert(x, s);
    forall j | 0 <= j < |t| ensures NameLe(b, t[j].name) {
      assert t[j] in multiset(t);
      if t[j] != x {
        assert t[j] in multiset(s);
        var k :| 0 <= k < |s| && s[k] == t[j];
      }
    }
  }

  /** `sorted(os.listdir(path))`: the listing in name order. */
  function SortByName(es: seq<Entry>): (r: seq<Entry>)
    ensures SortedByName(r)
    ensures multiset(r) == multiset(es)
  {
    if es == [] then []
    else
      var t := SortByName(es[1..]);
      InsertSorted(es[0], t);
      assert es == [es[0]] + es[1..];
      Insert(es[0], t)
  }

  /** An element of a sorted listing is one of the listing's own entries. */
  lemma SortedFrom(es: seq<Entry>)
    ensures forall x :: x in SortByName(es) ==> x in es
  {
    forall x | x in SortByName(es) ensures x in es {
      assert x in multiset(SortByName(es));
    }
  }

  lemma CountAtLeastTwo(b: seq<Entry>, i: nat, j: nat)
    requires i < j < |b| && b[i] == b[j]
    ensures multiset(b)[b[i]] >= 2
  {
    assert b == b[..j] + b[j..];
    assert b[i] == b[..j][i];
    assert b[j] == b[j..][0];
  }

  lemma CountOne(a: seq<Entry>, p: nat)
    requires DistinctNames(a) && p < |a|
    ensures multiset(a)[a[p]] == 1
  {
    assert a == a[..p] + [a[p]] + a[p + 1..];
    forall k | 0 <= k < |a| && k != p ensures a[k] != a[p] {
      assert a[k].name != a[p].name;
    }
    assert a[p] !in a[..p];
    assert a[p] !in a[p + 1..];
  }

  /** Reordering a listing keeps its names distinct. */
  lemma DistinctNamesPermutation(a: seq<Entry>, b: seq<Entry>)
    requires DistinctNames(a) && multiset(a) == multiset(b)
    ensures DistinctNames(b)
  {
    forall i, j | 0 <= i < j < |b| ensures b[i].name != b[j].name {
      assert b[i] in multiset(a) && b[j] in multiset(a);
      var p :| 0 <= p < |a| && a[p] == b[i];
      var q :| 0 <= q < |a| && a[q] == b[j];
      if p == q {
        CountAtLeastTwo(b, i, j);
        CountOne(a, p);
      }
    }
  }

  lemma MultisetTail(s: seq<Entry>)
    requires s != []
    ensures multiset(s[1..]) == multiset(s) - multiset{s[0]}
  {
    assert s == [s[0]] + s[1..];
  }

  /** Two name-sorted listings of the same entries, with distinct names, start alike. */
  lemma SortedHeads(s: seq<Entry>, t: seq<Entry>)
    requires SortedByName(s) && SortedByName(t)
    requires DistinctNames(s) && multiset(s) == multiset(t)
    requires s != []
    ensures t != [] && s[0] == t[0]
  {
    assert |multiset(t)| == |s|;
    assert s[0] in multiset(t) && t[0] in multiset(s);
    var k :| 0 <= k < |t| && t[k] == s[0];
    var m :| 0 <= m < |s| && s[m] == t[0];
    if k != 0 && m != 0 {
      NameLeAntisymmetric(s[0].name, t[0].name);
      assert false;
    }
  }

  /** Two name-sorted listings of the same entries, with distinct names, are equal. */
  lemma {:induction false} SortedUnique(s: seq<Entry>, t: seq<Entry>)
    requires SortedByName(s) && SortedByName(t)
    requires DistinctNames(s) && multiset(s) == multiset(t)
    ensures s == t
  {
    if s == [] {
      assert |multiset(t)| == 0;
    } else {
      SortedHeads(s, t);
      MultisetTail(s);
      MultisetTail(t);
      SortedUnique(s[1..], t[1..]);
      assert s == [s[0]] + s[1..] && t == [t[0]] + t[1..];
    }
  }

  /**
   * `sorted` makes the walk independent of the order in which the filesystem
   * lists a directory: any reordering of a listing sorts to the same sequence.
   */
  lemma SortIgnoresListingOrder(a: seq<Entry>, b: seq<Entry>)
    requires DistinctNames(a) && multiset(a) == multiset(b)
    ensures SortByName(a) == SortByName(b)
  {
    DistinctNamesPermutation(a, SortByName(a));
    SortedUnique(SortByName(a), SortByName(b));
  }
}
