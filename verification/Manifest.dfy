/**
 The store's manifest: entries sorted by (family, id), their canonical text, and
 the strict reading of manifest text. Writing and reading are inverse.
 */
module Manifest {
  import opened Texts
  import J = Json
  import S = StrictJson
  import C = Canonical
  import R = RoundTrip

  /**
   What the store takes from outside: the content hash as lower-case hex text
   and the lengths such a text may have, the identity field of each publishable
   family, schema validation, and the safe-path rule.
   */
  datatype Kernel = Kernel(
    hash: Text -> Text,
    sized: nat -> bool,
    idField: map<Text, Text>,
    valid: (Text, J.Json) -> bool,
    safe: Text -> bool)

  const SLASH: Code := 0x2F

  predicate IsHexText(t: Text)
  {
    t != [] && forall i :: 0 <= i < |t| ==> 0x30 <= t[i] <= 0x39 || 0x61 <= t[i] <= 0x66
  }

  /** `[0-9a-f]{64}`: hex digits, as many as the hash has. */
  predicate IsDigest(k: Kernel, t: Text) { IsHexText(t) && k.sized(|t|) }

  /** A family name has two nonempty parts, as in `research-claim/v1`. */
  predicate IsFamily(f: Text)
  {
    exists i :: 0 < i < |f| - 1 && f[i] == SLASH && SLASH !in f[..i] && SLASH !in f[i + 1..]
  }

  const RECORDS_PREFIX: Text := [0x72, 0x65, 0x63, 0x6F, 0x72, 0x64, 0x73, 0x2F]
  const JSON_SUFFIX: Text := [0x2E, 0x6A, 0x73, 0x6F, 0x6E]

  /** `record_relpath` */
  function RelPath(family: Text, sha: Text): Text
  {
    RECORDS_PREFIX + family + [SLASH] + sha + JSON_SUFFIX
  }

  /** Behind the family's slash a record path has no further slash. */
  lemma NoLaterSlash(f: Text, s: Text, p: nat)
    requires IsHexText(s)
    ensures RelPath(f, s)[8 + |f|] == SLASH
    ensures 8 + |f| < p < |RelPath(f, s)| - 5 ==> RelPath(f, s)[p] != SLASH
  {
    if 8 + |f| < p < |RelPath(f, s)| - 5 { assert RelPath(f, s)[p] == s[p - 9 - |f|]; }
  }

  /** Family and hash can be read off a record path. */
  lemma RelPathInjective(f: Text, s: Text, g: Text, u: Text)
    requires IsHexText(s) && IsHexText(u) && RelPath(f, s) == RelPath(g, u)
    ensures f == g && s == u
  {
    var t := RelPath(f, s);
    NoLaterSlash(f, s, 8 + |g|);
    NoLaterSlash(g, u, 8 + |f|);
    assert |f| == |g|;
    assert f == t[8..8 + |f|] && g == t[8..8 + |g|];
    assert s == t[9 + |f|..|t| - 5] && u == t[9 + |g|..|t| - 5];
  }

  // ---------------------------------------------------------------------
  // Paths in parts
  // ---------------------------------------------------------------------

  const RECORDS_DIR: Text := [0x72, 0x65, 0x63, 0x6F, 0x72, 0x64, 0x73]

  /** The pieces of a path between its slashes. */
  function Parts(t: Text): (ps: seq<Text>)
    ensures |ps| > 0
  {
    if t == [] then [[]]
    else if t[0] == SLASH then [[]] + Parts(t[1..])
    else var ps := Parts(t[1..]); [[t[0]] + ps[0]] + ps[1..]
  }

  lemma {:induction false} PartsOfJoin(a: Text, b: Text)
    requires SLASH !in a
    ensures Parts(a) == [a] && Parts(a + [SLASH] + b) == [a] + Parts(b)
  {
    if a == [] {
      assert (a + [SLASH] + b)[1..] == b;
    } else {
      PartsOfJoin(a[1..], b);
      assert (a + [SLASH] + b)[1..] == a[1..] + [SLASH] + b;
      assert a == [a[0]] + a[1..];
    }
  }

  /** A path is its first part, or that, a slash, and the path of the other parts. */
  lemma {:induction false} FirstPart(t: Text) returns (rest: Text)
    ensures SLASH !in Parts(t)[0]
    ensures |Parts(t)| == 1 ==> t == Parts(t)[0]
    ensures |Parts(t)| > 1 ==> t == Parts(t)[0] + [SLASH] + rest && Parts(rest) == Parts(t)[1..]
  {
    rest := [];
    if t != [] {
      assert t == [t[0]] + t[1..];
      if t[0] == SLASH {
        rest := t[1..];
      } else {
        rest := FirstPart(t[1..]);
      }
    }
  }

  /** `<digest>.json` */
  predicate IsRecordFileName(k: Kernel, name: Text)
  {
    |name| >= 5 && name[|name| - 5..] == JSON_SUFFIX && IsDigest(k, name[..|name| - 5])
  }

  /** What the parts of a record file's path must be, as `_load_disk_record` reads them. */
  predicate HasRecordParts(k: Kernel, rel: Text)
  {
    var ps := Parts(rel);
    |ps| == 4 && ps[0] == RECORDS_DIR && ps[1] != [] && ps[2] != [] && IsRecordFileName(k, ps[3])
  }

  function DirectoryFamily(k: Kernel, rel: Text): Text
    requires HasRecordParts(k, rel)
  {
    Parts(rel)[1] + [SLASH] + Parts(rel)[2]
  }

  function NamedDigest(k: Kernel, rel: Text): Text
    requires HasRecordParts(k, rel)
  {
    Parts(rel)[3][..|Parts(rel)[3]| - 5]
  }

  function JoinFour(a: Text, b: Text, c: Text, d: Text): Text
  {
    a + [SLASH] + (b + [SLASH] + (c + [SLASH] + d))
  }

  lemma FourParts(a: Text, b: Text, c: Text, d: Text)
    requires SLASH !in a && SLASH !in b && SLASH !in c && SLASH !in d
    ensures Parts(JoinFour(a, b, c, d)) == [a, b, c, d]
  {
    var cd := c + [SLASH] + d;
    var bcd := b + [SLASH] + cd;
    PartsOfJoin(a, bcd);
    PartsOfJoin(b, cd);
    PartsOfJoin(c, d);
    PartsOfJoin(d, []);
  }

  lemma FromFourParts(t: Text)
    requires |Parts(t)| == 4
    ensures var ps := Parts(t); t == JoinFour(ps[0], ps[1], ps[2], ps[3])
    ensures SLASH !in Parts(t)[1] && SLASH !in Parts(t)[2]
  {
    var ps := Parts(t);
    var r1 := FirstPart(t);
    var r2 := FirstPart(r1);
    var r3 := FirstPart(r2);
    var r4 := FirstPart(r3);
    assert Parts(r1) == ps[1..] && Parts(r2) == ps[2..] && Parts(r3) == ps[3..];
  }

  lemma RelPathJoins(a: Text, b: Text, s: Text)
    ensures RelPath(a + [SLASH] + b, s) == JoinFour(RECORDS_DIR, a, b, s + JSON_SUFFIX)
  {
    assert RECORDS_PREFIX == RECORDS_DIR + [SLASH];
    Regroup(RECORDS_DIR + [SLASH], a, b, s, JSON_SUFFIX);
  }

  lemma Regroup(p: Text, a: Text, b: Text, s: Text, e: Text)
    ensures p + (a + [SLASH] + b) + [SLASH] + s + e == p + (a + [SLASH] + (b + [SLASH] + (s + e)))
  {}

  /** A path with the right parts is the record path of its family and digest. */
  lemma PartsAreRelPath(k: Kernel, rel: Text)
    requires HasRecordParts(k, rel)
    ensures IsFamily(DirectoryFamily(k, rel)) && rel == RelPath(DirectoryFamily(k, rel), NamedDigest(k, rel))
  {
    var ps := Parts(rel);
    FromFourParts(rel);
    SplitFamily(ps[1], ps[2]);
    assert ps[3] == NamedDigest(k, rel) + JSON_SUFFIX;
    RelPathJoins(ps[1], ps[2], NamedDigest(k, rel));
  }

  lemma SplitFamily(a: Text, b: Text)
    requires SLASH !in a && SLASH !in b && a != [] && b != []
    ensures IsFamily(a + [SLASH] + b)
  {
    var f, i := a + [SLASH] + b, |a|;
    assert f[i] == SLASH && f[..i] == a && f[i + 1..] == b;
  }

  lemma FamilyParts(f: Text) returns (a: Text, b: Text)
    requires IsFamily(f)
    ensures SLASH !in a && SLASH !in b && a != [] && b != [] && f == a + [SLASH] + b
  {
    var i :| 0 < i < |f| - 1 && f[i] == SLASH && SLASH !in f[..i] && SLASH !in f[i + 1..];
    a, b := f[..i], f[i + 1..];
  }

  lemma DigestFileName(k: Kernel, s: Text)
    requires IsDigest(k, s)
    ensures var name := s + JSON_SUFFIX;
      SLASH !in name && IsRecordFileName(k, name) && name[..|name| - 5] == s
  {
    var name := s + JSON_SUFFIX;
    assert name[..|name| - 5] == s && name[|name| - 5..] == JSON_SUFFIX;
    assert SLASH !in s && SLASH !in JSON_SUFFIX;
  }

  /** A record path has the right parts, and they name its family and digest. */
  lemma RelPathParts(k: Kernel, f: Text, s: Text)
    requires IsFamily(f) && IsDigest(k, s)
    ensures HasRecordParts(k, RelPath(f, s))
    ensures DirectoryFamily(k, RelPath(f, s)) == f && NamedDigest(k, RelPath(f, s)) == s
  {
    var a, b := FamilyParts(f);
    DigestFileName(k, s);
    RelPathJoins(a, b, s);
    assert SLASH !in RECORDS_DIR;
    FourParts(RECORDS_DIR, a, b, s + JSON_SUFFIX);
    KnownParts(k, RelPath(f, s), a, b, s + JSON_SUFFIX);
  }

  lemma KnownParts(k: Kernel, rel: Text, a: Text, b: Text, name: Text)
    requires Parts(rel) == [RECORDS_DIR, a, b, name] && a != [] && b != [] && IsRecordFileName(k, name)
    ensures HasRecordParts(k, rel)
    ensures DirectoryFamily(k, rel) == a + [SLASH] + b && NamedDigest(k, rel) == name[..|name| - 5]
  {}

  datatype Entry = Entry(family: Text, id: Text, sha: Text, path: Text)

  // ---------------------------------------------------------------------
  // Order
  // ---------------------------------------------------------------------

  /** (family, id) in Python's tuple order. */
  predicate KeyLess(a: Entry, b: Entry)
  {
    Less(a.family, b.family) || (a.family == b.family && Less(a.id, b.id))
  }

  predicate SameKey(a: Entry, b: Entry) { a.family == b.family && a.id == b.id }

  lemma KeyLessTotal(a: Entry, b: Entry)
    ensures KeyLess(a, b) || KeyLess(b, a) || SameKey(a, b)
    ensures !(KeyLess(a, b) && KeyLess(b, a)) && !(KeyLess(a, b) && SameKey(a, b))
  {
    LeqTotal(a.family, b.family);
    LeqTotal(a.id, b.id);
    if Less(a.family, b.family) && Less(b.family, a.family) { LeqAntisymmetric(a.family, b.family); }
    if Less(a.id, b.id) && Less(b.id, a.id) { LeqAntisymmetric(a.id, b.id); }
  }

  lemma KeyLessTransitive(a: Entry, b: Entry, c: Entry)
    requires KeyLess(a, b) && KeyLess(b, c)
    ensures KeyLess(a, c)
  {
    LessTransitive(a.family, b.family, c.family);
    LessTransitive(a.id, b.id, c.id);
  }

  lemma LessTransitive(a: Text, b: Text, c: Text)
    ensures Less(a, b) && Less(b, c) ==> Less(a, c)
  {
    if Less(a, b) && Less(b, c) {
      LeqTransitive(a, b, c);
      if a == c { LeqAntisymmetric(a, b); }
    }
  }

  ghost predicate IsSorted(es: seq<Entry>)
  {
    forall i, j :: 0 <= i < j < |es| ==> KeyLess(es[i], es[j])
  }

  ghost predicate DistinctKeys(es: seq<Entry>)
  {
    forall i, j :: 0 <= i < j < |es| ==> !SameKey(es[i], es[j])
  }

  /** Insert before the first entry with a greater key. */
  function Insert(e: Entry, es: seq<Entry>): (r: seq<Entry>)
    ensures |r| == |es| + 1
  {
    if es == [] || KeyLess(e, es[0]) then [e] + es else [es[0]] + Insert(e, es[1..])
  }

  /** `sorted(entries, key=(family, id))` */
  function SortEntries(es: seq<Entry>): (r: seq<Entry>)
    ensures |r| == |es|
  {
    if es == [] then [] else Insert(es[|es| - 1], SortEntries(es[..|es| - 1]))
  }

  lemma {:induction false} InsertSorted(e: Entry, es: seq<Entry>)
    requires IsSorted(es) && forall i :: 0 <= i < |es| ==> !SameKey(e, es[i])
    ensures IsSorted(Insert(e, es))
    ensures forall x :: x in Insert(e, es) <==> x == e || x in es
  {
    if es != [] {
      KeyLessTotal(e, es[0]);
      if KeyLess(e, es[0]) {
        forall j | 0 <= j < |es| ensures KeyLess(e, es[j]) {
          if j > 0 { KeyLessTransitive(e, es[0], es[j]); }
        }
      } else {
        InsertSorted(e, es[1..]);
        var r := Insert(e, es[1..]);
        assert es == [es[0]] + es[1..];
        forall j | 0 <= j < |r| ensures KeyLess(es[0], r[j]) {
          assert r[j] in r;
          if r[j] != e { assert r[j] in es[1..]; }
        }
      }
    }
  }

  lemma {:induction false} SortSorted(es: seq<Entry>)
    requires DistinctKeys(es)
    ensures IsSorted(SortEntries(es)) && forall x :: x in SortEntries(es) <==> x in es
  {
    if es != [] {
      var e, rest := es[|es| - 1], es[..|es| - 1];
      SortSorted(rest);
      var r := SortEntries(rest);
      forall i | 0 <= i < |r| ensures !SameKey(e, r[i]) {
        assert r[i] in r;
        assert r[i] in rest;
        var k :| 0 <= k < |rest| && rest[k] == r[i];
        assert !SameKey(es[k], es[|es| - 1]);
      }
      InsertSorted(e, r);
      assert es == rest + [e];
    }
  }

  /** Sorted entry lists with the same members are the same list. */
  lemma {:induction false} SortedEntriesUnique(a: seq<Entry>, b: seq<Entry>)
    requires IsSorted(a) && IsSorted(b) && forall x :: x in a <==> x in b
    ensures a == b
  {
    assert b == [] || b[0] in b;
    if a != [] {
      assert a[0] in b;
      var j :| 0 <= j < |b| && b[j] == a[0];
      assert b[0] in a;
      var i :| 0 <= i < |a| && a[i] == b[0];
      KeyLessTotal(a[0], b[0]);
      KeyLessTotal(a[0], a[0]);
      assert a[0] == b[0];
      SortedTail(a, b);
      SortedTail(b, a);
      SortedEntriesUnique(a[1..], b[1..]);
      assert a == [a[0]] + a[1..] && b == [b[0]] + b[1..];
    }
  }

  lemma SortedTail(a: seq<Entry>, b: seq<Entry>)
    requires IsSorted(a) && IsSorted(b) && a != [] && b != [] && a[0] == b[0] && forall x :: x in a ==> x in b
    ensures forall x :: x in a[1..] ==> x in b[1..]
  {
    forall x | x in a[1..] ensures x in b[1..] {
      var i :| 0 <= i < |a[1..]| && a[1..][i] == x;
      assert a[i + 1] == x && x in a;
      var j :| 0 <= j < |b| && b[j] == x;
      KeyLessTotal(x, x);
      if j > 0 { assert b[1..][j - 1] == x; }
    }
  }

  /** The sorted list depends only on which entries there are. */
  lemma SortDependsOnSet(a: seq<Entry>, b: seq<Entry>)
    requires DistinctKeys(a) && DistinctKeys(b) && forall x :: x in a <==> x in b
    ensures SortEntries(a) == SortEntries(b)
  {
    SortSorted(a);
    SortSorted(b);
    SortedEntriesUnique(SortEntries(a), SortEntries(b));
  }

  // ---------------------------------------------------------------------
  // Manifest text
  // ---------------------------------------------------------------------

  const K_FAMILY: Text := [0x66, 0x61, 0x6D, 0x69, 0x6C, 0x79]
  const K_ID: Text := [0x69, 0x64]
  const K_SHA: Text := [0x73, 0x68, 0x61, 0x32, 0x35, 0x36]
  const K_PATH: Text := [0x70, 0x61, 0x74, 0x68]
  const K_MANIFEST: Text := [0x6D, 0x61, 0x6E, 0x69, 0x66, 0x65, 0x73, 0x74]
  const K_RECORDS: Text := [0x72, 0x65, 0x63, 0x6F, 0x72, 0x64, 0x73]
  const MANIFEST_KIND: Text :=
    [0x63, 0x6F, 0x72, 0x65, 0x2D, 0x6D, 0x61, 0x6E, 0x69, 0x66, 0x65, 0x73, 0x74, 0x2F, 0x76, 0x31]

  lemma KeysDiffer()
    ensures |{K_FAMILY, K_ID, K_SHA, K_PATH}| == 4
    ensures K_MANIFEST != K_RECORDS
    ensures J.IsClean(K_FAMILY) && J.IsClean(K_ID) && J.IsClean(K_SHA) && J.IsClean(K_PATH)
    ensures J.IsClean(K_MANIFEST) && J.IsClean(K_RECORDS) && J.IsClean(MANIFEST_KIND)
  {
    assert K_FAMILY[0] != K_SHA[0] && |K_MANIFEST| != |K_RECORDS|;
    FourNames(K_FAMILY, K_ID, K_SHA, K_PATH);
    KeysClean();
  }

  lemma FourNames(a: Text, b: Text, c: Text, d: Text)
    requires |b| < |d| < |c| == |a| && a != c
    ensures |{a, b, c, d}| == 4
  {
    assert {a, b, c, d} == {a} + {b} + {c} + {d};
  }

  lemma KeysClean()
    ensures J.IsClean(K_FAMILY) && J.IsClean(K_ID) && J.IsClean(K_SHA) && J.IsClean(K_PATH)
    ensures J.IsClean(K_MANIFEST) && J.IsClean(K_RECORDS) && J.IsClean(MANIFEST_KIND)
  {}

  function EntryJson(e: Entry): J.Json
  {
    J.Obj(map[K_FAMILY := J.Str(e.family), K_ID := J.Str(e.id), K_SHA := J.Str(e.sha), K_PATH := J.Str(e.path)])
  }

  function EntriesJson(es: seq<Entry>): (r: seq<J.Json>)
    ensures |r| == |es| && forall i :: 0 <= i < |es| ==> r[i] == EntryJson(es[i])
  {
    seq(|es|, i requires 0 <= i < |es| => EntryJson(es[i]))
  }

  /** `manifest_object` */
  function ManifestJson(es: seq<Entry>): J.Json
  {
    J.Obj(map[K_MANIFEST := J.Str(MANIFEST_KIND), K_RECORDS := J.Arr(EntriesJson(SortEntries(es)))])
  }

  /** `manifest_bytes` */
  function ManifestText(es: seq<Entry>): Text { C.Dump(ManifestJson(es)) }

  // ---------------------------------------------------------------------
  // Reading a manifest
  // ---------------------------------------------------------------------

  /** `_entry_or_problem` */
  function ReadEntry(k: Kernel, v: J.Json): Option<Entry>
  {
    if v.Obj? && v.members.Keys == {K_FAMILY, K_ID, K_SHA, K_PATH} &&
       v.members[K_FAMILY].Str? && v.members[K_ID].Str? && v.members[K_SHA].Str? && v.members[K_PATH].Str? then
      var e := Entry(v.members[K_FAMILY].s, v.members[K_ID].s, v.members[K_SHA].s, v.members[K_PATH].s);
      if IsDigest(k, e.sha) && k.safe(RelPath(e.family, e.sha)) && e.path == RelPath(e.family, e.sha) then Some(e)
      else None
    else None
  }

  ghost predicate DistinctPaths(es: seq<Entry>)
  {
    forall i, j :: 0 <= i < j < |es| ==> es[i].path != es[j].path
  }

  /** es is what the items say, item by item, without a repeated key or path. */
  ghost predicate ReadsAs(k: Kernel, items: seq<J.Json>, es: seq<Entry>)
  {
    && |es| == |items|
    && (forall i :: 0 <= i < |items| ==> ReadEntry(k, items[i]) == Some(es[i]))
    && DistinctKeys(es) && DistinctPaths(es)
  }

  /** The manifest text t lists exactly es, in this order. */
  ghost predicate ManifestLists(k: Kernel, t: Text, es: seq<Entry>)
  {
    && S.Load(t).Ok?
    && var m := S.Load(t).value.members;
      && m.Keys == {K_MANIFEST, K_RECORDS} && m[K_MANIFEST] == J.Str(MANIFEST_KIND)
      && m[K_RECORDS].Arr? && ReadsAs(k, m[K_RECORDS].items, es)
  }

  lemma ManifestListsUnique(k: Kernel, t: Text, a: seq<Entry>, b: seq<Entry>)
    requires ManifestLists(k, t, a) && ManifestLists(k, t, b)
    ensures a == b
  {
    var items := S.Load(t).value.members[K_RECORDS].items;
    forall i | 0 <= i < |items| ensures a[i] == b[i] {
      assert Some(a[i]) == ReadEntry(k, items[i]) == Some(b[i]);
    }
  }

  /** `parse_manifest`; None where the source raises. */
  method ParseManifest(k: Kernel, t: Text) returns (r: Option<seq<Entry>>)
    ensures r.Some? ==> ManifestLists(k, t, r.value)
    ensures r.None? ==> forall es :: !ManifestLists(k, t, es)
  {
    var obj := S.LoadStrictJson(t);
    if obj.Err? { return None; }
    var m := obj.value.members;
    if m.Keys != {K_MANIFEST, K_RECORDS} || m[K_MANIFEST] != J.Str(MANIFEST_KIND) || !m[K_RECORDS].Arr? {
      return None;
    }
    r := ReadItems(k, m[K_RECORDS].items);
  }

  ghost predicate SeenExactly(read: seq<Entry>, keys: set<(Text, Text)>, paths: set<Text>)
  {
    && (forall x :: x in keys <==> exists e :: e in read && x == (e.family, e.id))
    && (forall p :: p in paths <==> exists e :: e in read && p == e.path)
  }

  lemma SeenMore(read: seq<Entry>, keys: set<(Text, Text)>, paths: set<Text>, e: Entry)
    requires SeenExactly(read, keys, paths)
    ensures SeenExactly(read + [e], keys + {(e.family, e.id)}, paths + {e.path})
  {
    assert forall x :: x in read + [e] <==> x in read || x == e;
  }

  /** The entry loop with its two sets of what was seen. */
  method ReadItems(k: Kernel, items: seq<J.Json>) returns (r: Option<seq<Entry>>)
    ensures r.Some? ==> ReadsAs(k, items, r.value)
    ensures r.None? ==> forall es :: !ReadsAs(k, items, es)
  {
    var entries: seq<Entry> := [];
    var keys: set<(Text, Text)> := {};
    var paths: set<Text> := {};
    for i := 0 to |items|
      invariant ReadsAs(k, items[..i], entries) && SeenExactly(entries, keys, paths)
    {
      var entry := ReadEntry(k, items[i]);
      if entry.None? || (entry.value.family, entry.value.id) in keys || entry.value.path in paths {
        NoReading(k, items, entries, i, keys, paths);
        return None;
      }
      SeenMore(entries, keys, paths, entry.value);
      ReadsOneMore(k, items, entries, i, entry.value);
      keys := keys + {(entry.value.family, entry.value.id)};
      paths := paths + {entry.value.path};
      entries := entries + [entry.value];
    }
    TakeAll(items);
    return Some(entries);
  }

  lemma NoReading(k: Kernel, items: seq<J.Json>, read: seq<Entry>, i: nat, keys: set<(Text, Text)>, paths: set<Text>)
    requires i < |items| && ReadsAs(k, items[..i], read) && SeenExactly(read, keys, paths)
    requires ReadEntry(k, items[i]).Some? ==>
      (ReadEntry(k, items[i]).value.family, ReadEntry(k, items[i]).value.id) in keys ||
      ReadEntry(k, items[i]).value.path in paths
    ensures forall es :: !ReadsAs(k, items, es)
  {
    forall es ensures !ReadsAs(k, items, es) {
      if ReadsAs(k, items, es) { PrefixReads(k, items, es, read, i); }
    }
  }

  lemma PrefixReads(k: Kernel, items: seq<J.Json>, es: seq<Entry>, read: seq<Entry>, i: nat)
    requires i < |items| && ReadsAs(k, items, es) && ReadsAs(k, items[..i], read)
    ensures es[..i] == read && ReadEntry(k, items[i]) == Some(es[i])
    ensures forall j :: 0 <= j < i ==> read[j] == es[j] && !SameKey(es[j], es[i]) && es[j].path != es[i].path
  {
    forall j | 0 <= j < i ensures es[j] == read[j] {
      assert items[..i][j] == items[j];
      assert Some(es[j]) == ReadEntry(k, items[j]) == Some(read[j]);
    }
  }

  lemma ReadsOneMore(k: Kernel, items: seq<J.Json>, read: seq<Entry>, i: nat, e: Entry)
    requires i < |items| && ReadsAs(k, items[..i], read) && ReadEntry(k, items[i]) == Some(e)
    requires forall x :: x in read ==> !SameKey(x, e) && x.path != e.path
    ensures ReadsAs(k, items[..i + 1], read + [e])
  {
    TakeStep(items, i);
    var more := read + [e];
    forall a, b | 0 <= a < b < |more| ensures !SameKey(more[a], more[b]) && more[a].path != more[b].path {
      assert more[a] == read[a] && read[a] in read;
    }
  }

  // ---------------------------------------------------------------------
  // Writing and reading are inverse
  // ---------------------------------------------------------------------

  /** An entry that the store may write. */
  ghost predicate GoodEntry(k: Kernel, e: Entry)
  {
    && J.IsClean(e.family) && J.IsClean(e.id) && J.IsClean(e.sha) && J.IsClean(e.path)
    && IsDigest(k, e.sha) && e.path == RelPath(e.family, e.sha) && k.safe(e.path)
  }

  lemma EntryWalks(e: Entry, k: Kernel)
    requires GoodEntry(k, e)
    ensures J.Walks(EntryJson(e), 2, J.ModelNode) && J.Walks(EntryJson(e), 2, J.CleanNode)
    ensures J.Normalize(EntryJson(e)) == EntryJson(e)
  {
    KeysDiffer();
    var v := EntryJson(e);
    forall x | x in v.members
      ensures J.IsClean(x) && J.Walks(v.members[x], 3, J.ModelNode) && J.Walks(v.members[x], 3, J.CleanNode)
      ensures J.Normalize(v.members[x]) == v.members[x]
    {}
    assert J.Normalize(v).members == v.members;
  }

  lemma EntryReads(k: Kernel, e: Entry)
    requires GoodEntry(k, e)
    ensures ReadEntry(k, EntryJson(e)) == Some(e)
  {
    KeysDiffer();
    assert K_FAMILY != K_SHA && K_FAMILY != K_ID && K_FAMILY != K_PATH && K_ID != K_SHA && K_ID != K_PATH && K_SHA != K_PATH;
  }

  /** The written manifest is an acceptable value in normal form. */
  lemma ManifestAcceptable(k: Kernel, es: seq<Entry>)
    requires forall e :: e in es ==> GoodEntry(k, e)
    requires DistinctKeys(es)
    ensures J.Acceptable(ManifestJson(es)) && J.Normalize(ManifestJson(es)) == ManifestJson(es)
  {
    SortSorted(es);
    KeysDiffer();
    var sorted := SortEntries(es);
    var arr, v := J.Arr(EntriesJson(sorted)), ManifestJson(es);
    forall i | 0 <= i < |sorted|
      ensures J.Walks(arr.items[i], 2, J.ModelNode) && J.Walks(arr.items[i], 2, J.CleanNode)
      ensures J.Normalize(arr.items[i]) == arr.items[i]
    {
      assert sorted[i] in sorted;
      EntryWalks(sorted[i], k);
    }
    assert J.Normalize(arr).items == arr.items;
    assert J.Walks(arr, 1, J.ModelNode) && J.Walks(arr, 1, J.CleanNode);
    assert v.members[K_RECORDS] == arr && v.members[K_MANIFEST] == J.Str(MANIFEST_KIND);
    assert J.Normalize(v).members == v.members;
  }

  /** Reading back the manifest written for es gives es, sorted. */
  lemma WrittenManifestLists(k: Kernel, es: seq<Entry>)
    requires forall e :: e in es ==> GoodEntry(k, e)
    requires DistinctKeys(es) && DistinctPaths(es)
    ensures ManifestLists(k, ManifestText(es), SortEntries(es))
  {
    ManifestAcceptable(k, es);
    R.LoadOfDump(ManifestJson(es));
    WrittenItemsRead(k, es);
    ManifestMembers(es);
    LoadedLists(k, ManifestText(es), ManifestJson(es), EntriesJson(SortEntries(es)), SortEntries(es));
  }

  lemma ManifestMembers(es: seq<Entry>)
    ensures var m := ManifestJson(es).members;
      && m.Keys == {K_MANIFEST, K_RECORDS} && m[K_MANIFEST] == J.Str(MANIFEST_KIND)
      && m[K_RECORDS] == J.Arr(EntriesJson(SortEntries(es)))
  {
    KeysDiffer();
  }

  lemma LoadedLists(k: Kernel, t: Text, v: J.Json, items: seq<J.Json>, es: seq<Entry>)
    requires S.Load(t) == S.Ok(v) && v.Obj? && v.members.Keys == {K_MANIFEST, K_RECORDS}
    requires v.members[K_MANIFEST] == J.Str(MANIFEST_KIND) && v.members[K_RECORDS] == J.Arr(items)
    requires ReadsAs(k, items, es)
    ensures ManifestLists(k, t, es)
  {}

  lemma WrittenItemsRead(k: Kernel, es: seq<Entry>)
    requires forall e :: e in es ==> GoodEntry(k, e)
    requires DistinctKeys(es) && DistinctPaths(es)
    ensures ReadsAs(k, EntriesJson(SortEntries(es)), SortEntries(es))
  {
    SortSorted(es);
    var sorted := SortEntries(es);
    forall i | 0 <= i < |sorted| ensures ReadEntry(k, EntryJson(sorted[i])) == Some(sorted[i]) {
      assert sorted[i] in sorted;
      EntryReads(k, sorted[i]);
    }
    SortedDistinct(es);
  }

  lemma SortedDistinct(es: seq<Entry>)
    requires DistinctKeys(es) && DistinctPaths(es)
    ensures DistinctKeys(SortEntries(es)) && DistinctPaths(SortEntries(es))
  {
    SortSorted(es);
    var s := SortEntries(es);
    forall i, j | 0 <= i < j < |s| ensures !SameKey(s[i], s[j]) && s[i].path != s[j].path {
      KeyLessTotal(s[i], s[j]);
      assert s[i] in s && s[j] in s;
      var a :| 0 <= a < |es| && es[a] == s[i];
      var b :| 0 <= b < |es| && es[b] == s[j];
      if a < b { assert es[a].path != es[b].path; } else { assert es[b].path != es[a].path; }
    }
  }

  /** The manifest text depends only on the set of entries, not on the order they came in. */
  lemma ManifestDependsOnSet(a: seq<Entry>, b: seq<Entry>)
    requires DistinctKeys(a) && DistinctKeys(b)
    ensures (forall x :: x in a <==> x in b) ==> ManifestText(a) == ManifestText(b)
  {
    if forall x :: x in a <==> x in b { SortDependsOnSet(a, b); }
  }
}
