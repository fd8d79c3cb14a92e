/** Peers as the view receives them, the region each one is filed under,
    and the order the regions are shown in. */
module Regions {
  import opened JsString

  /** The key of the bucket for peers without a region (line 240): an em
      dash. */
  const NO_REGION: string := "\U{2014}"

  /** A peer of the peers reply. `id` is the resolved `p.id || p`; a missing
      endpoint, description or region is the empty string. */
  datatype Peer = Peer(id: string, endpoint: string, description: string, region: string)

  /** A row of a region bucket (line 248); `box` names the peer's checkbox
      by the peer's position. */
  datatype Row = Row(id: string, endpoint: string, description: string, box: nat)

  /** The bucket a region is filed under (line 246): the trimmed region, or
      `NO_REGION` when that is empty. */
  function RegionKey(region: string): (key: string)
    ensures key != []
    ensures key == NO_REGION <==> Trim(region) == [] || Trim(region) == NO_REGION
    ensures key != NO_REGION ==> key == Trim(region)
  {
    var t := Trim(region);
    if t != [] then t else NO_REGION
  }

  function RowOf(peers: seq<Peer>, i: nat): Row
    requires i < |peers|
  {
    Row(peers[i].id, peers[i].endpoint, peers[i].description, i)
  }

  // ---------------------------------------------------------------- buckets

  /** The bucket a peer is filed under. */
  function PeerKey(p: Peer): string {
    RegionKey(p.region)
  }

  /** The rows of the peers that `keyOf` files under `key`, in the order of
      the peers. */
  function Group(keyOf: Peer -> string, peers: seq<Peer>, key: string): seq<Row> {
    if peers == [] then []
    else
      var n := |peers| - 1;
      Group(keyOf, peers[..n], key) + (if keyOf(peers[n]) == key then [RowOf(peers, n)] else [])
  }

  /** The rows filed under `key` (the pushes of lines 247-248). */
  function Bucket(peers: seq<Peer>, key: string): seq<Row> {
    Group(PeerKey, peers, key)
  }

  function Boxes(rows: seq<Row>): (boxes: seq<nat>)
    ensures |boxes| == |rows| && forall k | 0 <= k < |rows| :: boxes[k] == rows[k].box
  {
    seq(|rows|, k requires 0 <= k < |rows| => rows[k].box)
  }

  /** Each row is the row of a peer that `keyOf` files under `key`. */
  predicate RowsOf(keyOf: Peer -> string, peers: seq<Peer>, key: string, rows: seq<Row>) {
    forall k | 0 <= k < |rows| ::
      rows[k].box < |peers| && keyOf(peers[rows[k].box]) == key
      && rows[k] == RowOf(peers, rows[k].box)
  }

  /** The rows follow the order of the peers. */
  predicate InPeerOrder(rows: seq<Row>) {
    forall k, l | 0 <= k < l < |rows| :: rows[k].box < rows[l].box
  }

  lemma {:induction false} GroupRows(keyOf: Peer -> string, peers: seq<Peer>, key: string)
    ensures RowsOf(keyOf, peers, key, Group(keyOf, peers, key))
    ensures InPeerOrder(Group(keyOf, peers, key))
    decreases |peers|
  {
    if peers != [] {
      var n := |peers| - 1;
      var init := peers[..n];
      GroupRows(keyOf, init, key);
      var rows := Group(keyOf, init, key);
      var last := if keyOf(peers[n]) == key then [RowOf(peers, n)] else [];
      var all := rows + last;
      assert Group(keyOf, peers, key) == all;
      forall k | 0 <= k < |rows|
        ensures all[k].box < n && keyOf(peers[all[k].box]) == key && all[k] == RowOf(peers, all[k].box)
      {
        assert all[k] == rows[k];
        assert init[rows[k].box] == peers[rows[k].box];
      }
    }
  }

  lemma {:induction false} GroupHas(keyOf: Peer -> string, peers: seq<Peer>, i: nat, key: string)
    requires i < |peers|
    ensures i in Boxes(Group(keyOf, peers, key)) <==> key == keyOf(peers[i])
    decreases |peers|
  {
    var n := |peers| - 1;
    var init := peers[..n];
    var rows := Group(keyOf, init, key);
    var last := if keyOf(peers[n]) == key then [RowOf(peers, n)] else [];
    assert Group(keyOf, peers, key) == rows + last;
    assert Boxes(rows + last) == Boxes(rows) + Boxes(last);
    if i < n {
      GroupHas(keyOf, init, i, key);
      assert init[i] == peers[i];
    } else {
      GroupRows(keyOf, init, key);
      assert forall k | 0 <= k < |rows| :: Boxes(rows)[k] < n;
      assert n !in Boxes(rows);
      if keyOf(peers[n]) == key {
        assert Boxes(last) == [n];
      }
    }
  }

  /** Every row of a bucket is the row of a peer filed under that bucket,
      and the rows follow the order of the peers. */
  lemma BucketRows(peers: seq<Peer>, key: string)
    ensures RowsOf(PeerKey, peers, key, Bucket(peers, key))
    ensures InPeerOrder(Bucket(peers, key))
  {
    GroupRows(PeerKey, peers, key);
  }

  /** Every peer lands in exactly one bucket: the one its region is filed
      under. */
  lemma OneBucketPerPeer(peers: seq<Peer>, i: nat, key: string)
    requires i < |peers|
    ensures i in Boxes(Bucket(peers, key)) <==> key == RegionKey(peers[i].region)
  {
    GroupHas(PeerKey, peers, i, key);
  }

  // ---------------------------------------------------------------- key order

  predicate NoDup(s: seq<string>) {
    forall i, j | 0 <= i < j < |s| :: s[i] != s[j]
  }

  /** The distinct elements of `s` in the order of their first occurrence:
      the order of `Object.keys` on an object filled in that order. */
  function Distinct(s: seq<string>): seq<string> {
    if s == [] then []
    else
      var n := |s| - 1;
      var d := Distinct(s[..n]);
      if s[n] in s[..n] then d else d + [s[n]]
  }

  /** `Distinct` keeps every element once. */
  lemma {:induction false} DistinctSpec(s: seq<string>)
    ensures forall x :: x in Distinct(s) <==> x in s
    ensures NoDup(Distinct(s))
    decreases |s|
  {
    if s != [] {
      var n := |s| - 1;
      DistinctSpec(s[..n]);
      assert s == s[..n] + [s[n]];
    }
  }

  function Ids(peers: seq<Peer>): (ids: seq<string>)
    ensures |ids| == |peers| && forall i | 0 <= i < |peers| :: ids[i] == peers[i].id
  {
    seq(|peers|, i requires 0 <= i < |peers| => peers[i].id)
  }

  /** The bucket key of every peer, in the order of the peers. */
  function Keys(keyOf: Peer -> string, peers: seq<Peer>): (keys: seq<string>)
    ensures |keys| == |peers| && forall i | 0 <= i < |peers| :: keys[i] == keyOf(peers[i])
  {
    seq(|peers|, i requires 0 <= i < |peers| => keyOf(peers[i]))
  }

  // ---------------------------------------------------------------- ordering

  /** `localeCompare`, taken as the lexicographic order of code points. */
  function LexCompare(a: string, b: string): (c: int)
    ensures -1 <= c <= 1
  {
    if a == [] && b == [] then 0
    else if a == [] then -1
    else if b == [] then 1
    else if a[0] < b[0] then -1
    else if a[0] > b[0] then 1
    else LexCompare(a[1..], b[1..])
  }

  /** Only equal strings compare equal. */
  lemma {:induction false} LexCompareZero(a: string, b: string)
    ensures LexCompare(a, b) == 0 <==> a == b
    decreases |a|
  {
    if a != [] && b != [] && a[0] == b[0] {
      LexCompareZero(a[1..], b[1..]);
      if a[1..] == b[1..] {
        assert a == [a[0]] + a[1..] && b == [b[0]] + b[1..];
      }
    }
  }

  /** Swapping the operands flips the sign. */
  lemma {:induction false} LexCompareFlip(a: string, b: string)
    ensures LexCompare(b, a) == -LexCompare(a, b)
    decreases |a|
  {
    if a != [] && b != [] && a[0] == b[0] {
      LexCompareFlip(a[1..], b[1..]);
    }
  }

  /** "Compares before" is transitive. */
  lemma {:induction false} LexCompareTransitive(a: string, b: string, c: string)
    requires LexCompare(a, b) < 0 && LexCompare(b, c) < 0
    ensures LexCompare(a, c) < 0
    decreases |a|
  {
    if a != [] && b != [] && c != [] && a[0] == b[0] && b[0] == c[0] {
      LexCompareTransitive(a[1..], b[1..], c[1..]);
    }
  }

  /** The comparator of `regionOrder` (lines 291-295): `NO_REGION` after
      everything, the rest by `localeCompare`. */
  function CompareRegions(a: string, b: string): (c: int)
    ensures -1 <= c <= 1
    ensures c == 0 <==> a == b && a != NO_REGION
  {
    LexCompareZero(a, b);
    if a == NO_REGION then 1
    else if b == NO_REGION then -1
    else LexCompare(a, b)
  }

  /** `NO_REGION` sorts after every other region, from either side. */
  lemma NoRegionLast(a: string)
    requires a != NO_REGION
    ensures CompareRegions(a, NO_REGION) < 0 && CompareRegions(NO_REGION, a) > 0
  {
  }

  /** On two distinct regions the comparator is consistent: exactly one
      of them comes first. */
  lemma CompareRegionsConsistent(a: string, b: string)
    requires a != b
    ensures CompareRegions(a, b) != 0
    ensures CompareRegions(a, b) < 0 <==> CompareRegions(b, a) > 0
  {
    LexCompareZero(a, b);
    LexCompareFlip(a, b);
  }

  predicate RegionBefore(a: string, b: string) {
    CompareRegions(a, b) < 0
  }

  lemma RegionBeforeTransitive(a: string, b: string, c: string)
    requires RegionBefore(a, b) && RegionBefore(b, c)
    ensures RegionBefore(a, c)
  {
    if a != NO_REGION && b != NO_REGION && c != NO_REGION {
      LexCompareTransitive(a, b, c);
    }
  }

  predicate Sorted(s: seq<string>) {
    forall i, j | 0 <= i < j < |s| :: RegionBefore(s[i], s[j])
  }

  /** Insert `x` in front of the first element it compares before. */
  function Insert(x: string, s: seq<string>): (r: seq<string>)
    ensures multiset(r) == multiset(s) + multiset{x}
  {
    if s == [] then [x]
    else if RegionBefore(x, s[0]) then [x] + s
    else
      assert s == [s[0]] + s[1..];
      [s[0]] + Insert(x, s[1..])
  }

  /** The region names in the order `regionOrder`'s comparator puts them. */
  function SortRegions(keys: seq<string>): (r: seq<string>)
    ensures multiset(r) == multiset(keys)
  {
    if keys == [] then []
    else
      assert keys == [keys[0]] + keys[1..];
      Insert(keys[0], SortRegions(keys[1..]))
  }

  lemma {:induction false} InsertSorted(x: string, s: seq<string>)
    requires Sorted(s) && x !in s
    ensures Sorted(Insert(x, s))
    decreases |s|
  {
    if s != [] {
      CompareRegionsConsistent(x, s[0]);
      CompareRegionsConsistent(s[0], x);
      if RegionBefore(x, s[0]) {
        forall j | 1 <= j < |s| ensures RegionBefore(x, s[j]) {
          RegionBeforeTransitive(x, s[0], s[j]);
        }
      } else {
        InsertSorted(x, s[1..]);
        var r := Insert(x, s[1..]);
        assert forall y | y in r :: y == x || y in s[1..] by {
          forall y | y in r ensures y == x || y in s[1..] {
            assert y in multiset(r);
          }
        }
        assert forall k | 0 <= k < |r| :: RegionBefore(s[0], r[k]) by {
          forall k | 0 <= k < |r| ensures RegionBefore(s[0], r[k]) {
            assert r[k] in r;
            if r[k] != x {
              var j :| 0 <= j < |s[1..]| && s[1..][j] == r[k];
              assert s[j + 1] == r[k];
            }
          }
        }
      }
    }
  }

  /** Sorting distinct region names orders them by the comparator. */
  lemma {:induction false} SortRegionsSorted(keys: seq<string>)
    requires NoDup(keys)
    ensures Sorted(SortRegions(keys))
    decreases |keys|
  {
    if keys != [] {
      var rest := keys[1..];
      assert NoDup(rest);
      SortRegionsSorted(rest);
      assert keys[0] !in multiset(rest);
      InsertSorted(keys[0], SortRegions(rest));
    }
  }

  /** A region never comes before itself or before one that comes before
      it. */
  lemma RegionBeforeAsymmetric(a: string, b: string)
    ensures RegionBefore(a, b) ==> !RegionBefore(b, a)
  {
    LexCompareZero(a, a);
    if a != b {
      CompareRegionsConsistent(a, b);
    }
  }

  /** A sorted sequence holds no element twice. */
  lemma SortedNoDup(s: seq<string>)
    requires Sorted(s)
    ensures NoDup(s)
  {
    forall i, j | 0 <= i < j < |s| ensures s[i] != s[j] {
      RegionBeforeAsymmetric(s[i], s[j]);
    }
  }

  /** The first element of a sorted sequence comes before all others. */
  lemma SortedFirst(s: seq<string>, x: string)
    requires Sorted(s) && x in s
    ensures x == s[0] || RegionBefore(s[0], x)
  {
    var i :| 0 <= i < |s| && s[i] == x;
  }

  /** Two sorted sequences of the same elements start alike. */
  lemma SortedSameFirst(s: seq<string>, t: seq<string>)
    requires Sorted(s) && Sorted(t) && multiset(s) == multiset(t) && s != []
    ensures t != [] && s[0] == t[0]
  {
    assert s[0] in multiset(t);
    assert t != [] && t[0] in multiset(s);
    SortedFirst(s, t[0]);
    SortedFirst(t, s[0]);
    RegionBeforeAsymmetric(s[0], t[0]);
  }

  /** Dropping equal heads of two sequences with the same elements leaves
      tails with the same elements. */
  lemma MultisetTail(s: seq<string>, t: seq<string>)
    requires s != [] && t != [] && s[0] == t[0] && multiset(s) == multiset(t)
    ensures multiset(s[1..]) == multiset(t[1..])
  {
    assert s == [s[0]] + s[1..] && t == [t[0]] + t[1..];
    assert multiset(s[1..]) == multiset(s) - multiset{s[0]};
    assert multiset(t[1..]) == multiset(t) - multiset{t[0]};
  }

  /** Two sorted sequences of the same elements are equal: any sorting
      algorithm puts distinct region names in this one order. */
  lemma {:induction false} SortedUnique(s: seq<string>, t: seq<string>)
    requires Sorted(s) && Sorted(t) && multiset(s) == multiset(t)
    ensures s == t
    decreases |s|
  {
    if s != [] {
      SortedSameFirst(s, t);
      MultisetTail(s, t);
      SortedUnique(s[1..], t[1..]);
      assert s == [s[0]] + s[1..] && t == [t[0]] + t[1..];
    } else {
      assert |t| == |multiset(t)|;
    }
  }

  /** In a sorted sequence, an element that comes before nothing is last. */
  lemma SortedLast(r: seq<string>, x: string)
    requires Sorted(r) && x in r
    requires forall y :: !RegionBefore(x, y)
    ensures r[|r| - 1] == x
  {
    var i :| 0 <= i < |r| && r[i] == x;
    assert !RegionBefore(r[i], r[|r| - 1]);
  }

  /** When some peer has no region, `NO_REGION` is the last region shown. */
  lemma NoRegionShownLast(keys: seq<string>)
    requires NoDup(keys) && NO_REGION in keys
    ensures SortRegions(keys) != [] && SortRegions(keys)[|SortRegions(keys)| - 1] == NO_REGION
  {
    var r := SortRegions(keys);
    SortRegionsSorted(keys);
    assert NO_REGION in multiset(keys);
    assert NO_REGION in r;
    SortedLast(r, NO_REGION);
  }
}
