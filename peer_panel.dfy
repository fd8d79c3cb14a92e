/** The peer selection panel: one checkbox per peer, the map from a peer id
    to its checkbox, the region buckets, and the three operations the
    buttons call. */
module PeerPanel {
  import opened JsString
  import opened Regions
  import opened Whitelist

  /** `k` is the last position of a peer with id `id`: the checkbox that
      `peerCheckboxes[id]` ends up holding after the `forEach`. */
  predicate IsLastBox(peers: seq<Peer>, id: string, k: nat) {
    k < |peers| && peers[k].id == id
    && forall j | k < j < |peers| :: peers[j].id != id
  }

  /** Whether the checkbox registered for `id` is checked. */
  predicate IsChecked(boxOf: map<string, nat>, b: seq<bool>, id: string) {
    id in boxOf && boxOf[id] < |b| && b[boxOf[id]]
  }

  /** The ids of `ids` whose checkbox is checked, in the order of `ids`. */
  function Selected(ids: seq<string>, boxOf: map<string, nat>, b: seq<bool>): (r: seq<string>)
    ensures forall id :: id in r <==> id in ids && IsChecked(boxOf, b, id)
    ensures NoDup(ids) ==> NoDup(r)
  {
    if ids == [] then []
    else
      var n := |ids| - 1;
      var init := Selected(ids[..n], boxOf, b);
      assert ids == ids[..n] + [ids[n]];
      init + (if IsChecked(boxOf, b, ids[n]) then [ids[n]] else [])
  }

  /** When every checkbox of `ids` holds `checked`, the selection is all of
      `ids` or none of them. */
  lemma {:induction false} SelectedUniform(ids: seq<string>, boxOf: map<string, nat>, b: seq<bool>, checked: bool)
    requires forall id | id in ids :: id in boxOf && boxOf[id] < |b| && b[boxOf[id]] == checked
    ensures Selected(ids, boxOf, b) == (if checked then ids else [])
    decreases |ids|
  {
    if ids != [] {
      var n := |ids| - 1;
      assert ids == ids[..n] + [ids[n]];
      SelectedUniform(ids[..n], boxOf, b, checked);
    }
  }

  /** `m` is `peerCheckboxes` after the peers `peers`: it holds exactly
      their ids, each with the checkbox of its last peer. */
  ghost predicate BoxMap(peers: seq<Peer>, m: map<string, nat>) {
    (forall id :: id in m <==> id in Ids(peers))
    && forall id | id in m :: IsLastBox(peers, id, m[id])
  }

  /** When no two peers share an id, every peer's id leads to that peer's
      own checkbox, so every checkbox is reachable through the map. */
  lemma DistinctIdsAllRegistered(peers: seq<Peer>, m: map<string, nat>)
    requires BoxMap(peers, m) && NoDup(Ids(peers))
    ensures forall i | 0 <= i < |peers| :: peers[i].id in m && m[peers[i].id] == i
  {
    forall i | 0 <= i < |peers| ensures peers[i].id in m && m[peers[i].id] == i {
      var id := peers[i].id;
      assert Ids(peers)[i] == id;
      var k := m[id];
      assert IsLastBox(peers, id, k);
    }
  }

  /** `buckets` is `regionToPeers` after the peers `peers`: it holds a
      bucket for exactly their keys, each with that key's rows. */
  ghost predicate BucketMap(keyOf: Peer -> string, peers: seq<Peer>, buckets: map<string, seq<Row>>) {
    (forall r :: r in buckets <==> r in Keys(keyOf, peers))
    && forall r | r in buckets :: buckets[r] == Group(keyOf, peers, r)
  }

  /** `if (!m[r]) m[r] = []; m[r].push(row)`. */
  function Push(buckets: map<string, seq<Row>>, r: string, row: Row): map<string, seq<Row>> {
    buckets[r := (if r in buckets then buckets[r] else []) + [row]]
  }

  lemma IdsSnoc(peers: seq<Peer>, i: nat)
    requires i < |peers|
    ensures Ids(peers[..i + 1]) == Ids(peers[..i]) + [peers[i].id]
  {
  }

  lemma KeysSnoc(keyOf: Peer -> string, peers: seq<Peer>, i: nat)
    requires i < |peers|
    ensures Keys(keyOf, peers[..i + 1]) == Keys(keyOf, peers[..i]) + [keyOf(peers[i])]
  {
  }

  /** One step of the `forEach` over the peers, for `peerCheckboxes`: the
      peer at `i` becomes the last box of its id. */
  lemma BoxMapStep(peers: seq<Peer>, i: nat, m: map<string, nat>, m': map<string, nat>)
    requires i < |peers| && BoxMap(peers[..i], m) && m' == m[peers[i].id := i]
    ensures BoxMap(peers[..i + 1], m')
  {
    IdsSnoc(peers, i);
    forall id | id in m' ensures IsLastBox(peers[..i + 1], id, m'[id]) {
      if id != peers[i].id {
        assert IsLastBox(peers[..i], id, m[id]);
      }
    }
  }

  /** `Distinct` grows by one element exactly when it meets a new one. */
  lemma DistinctSnoc(s: seq<string>, x: string)
    ensures Distinct(s + [x]) == if x in s then Distinct(s) else Distinct(s) + [x]
  {
    assert (s + [x])[..|s|] == s;
  }

  /** One step of the `forEach` over the peers, for `regionToPeers`: the
      peer at `i` is pushed onto the bucket of its key. */
  lemma BucketMapStep(keyOf: Peer -> string, peers: seq<Peer>, i: nat, buckets: map<string, seq<Row>>)
    requires i < |peers| && BucketMap(keyOf, peers[..i], buckets)
    ensures BucketMap(keyOf, peers[..i + 1], Push(buckets, keyOf(peers[i]), RowOf(peers, i)))
  {
    var p := peers[..i + 1];
    assert p[..i] == peers[..i];
    assert RowOf(p, i) == RowOf(peers, i);
    KeysSnoc(keyOf, peers, i);
    var r := keyOf(peers[i]);
    if r !in buckets {
      GroupOfNewKey(keyOf, peers[..i], r);
    }
  }

  /** A key no peer has has an empty group. */
  lemma GroupOfNewKey(keyOf: Peer -> string, peers: seq<Peer>, r: string)
    requires r !in Keys(keyOf, peers)
    ensures Group(keyOf, peers, r) == []
  {
    GroupRows(keyOf, peers, r);
    var rows := Group(keyOf, peers, r);

  }

  /** The checkbox at `i` is the one `peerCheckboxes` holds for its id. */
  predicate IsRegistered(peers: seq<Peer>, m: map<string, nat>, i: nat) {
    i < |peers| && peers[i].id in m && m[peers[i].id] == i
  }

  /** `b` is `before` with the registered checkboxes of the ids `keys` set
      to `checked`. */
  ghost predicate SetKeys(peers: seq<Peer>, m: map<string, nat>, keys: seq<string>,
                          before: seq<bool>, b: seq<bool>, checked: bool) {
    |before| == |peers| && |b| == |before|
    && forall i | 0 <= i < |b| ::
      b[i] == if IsRegistered(peers, m, i) && peers[i].id in keys then checked else before[i]
  }

  /** One step of the `forEach` of `selectAllPeers`. */
  lemma SetKeysStep(peers: seq<Peer>, m: map<string, nat>, keys: seq<string>, k: nat,
                    before: seq<bool>, b: seq<bool>, checked: bool)
    requires BoxMap(peers, m) && k < |keys| && keys[k] in m
    requires SetKeys(peers, m, keys[..k], before, b, checked)
    ensures m[keys[k]] < |b|
    ensures SetKeys(peers, m, keys[..k + 1], before, b[m[keys[k]] := checked], checked)
  {
    assert keys[..k + 1] == keys[..k] + [keys[k]];
    assert IsLastBox(peers, keys[k], m[keys[k]]);
  }

  /** Every key of `peerCheckboxes` names a checkbox. */
  lemma KeysRegistered(peers: seq<Peer>, m: map<string, nat>)
    requires BoxMap(peers, m)
    ensures forall k | 0 <= k < |Distinct(Ids(peers))| :: Distinct(Ids(peers))[k] in m
  {
    DistinctSpec(Ids(peers));
  }

  /** Once every key is done, exactly the registered checkboxes hold
      `checked`, and the selection is all keys or none. */
  lemma SetKeysAll(peers: seq<Peer>, m: map<string, nat>, before: seq<bool>, b: seq<bool>, checked: bool)
    requires BoxMap(peers, m)
    requires SetKeys(peers, m, Distinct(Ids(peers)), before, b, checked)
    ensures forall i | 0 <= i < |b| :: peers[i].id in m
    ensures forall i | 0 <= i < |b| :: b[i] == if m[peers[i].id] == i then checked else before[i]
    ensures Selected(Distinct(Ids(peers)), m, b) == if checked then Distinct(Ids(peers)) else []
  {
    var keys := Distinct(Ids(peers));
    DistinctSpec(Ids(peers));
    assert forall i | 0 <= i < |peers| :: Ids(peers)[i] == peers[i].id;
    forall id | id in keys ensures id in m && m[id] < |b| && b[m[id]] == checked {
      assert IsLastBox(peers, id, m[id]);
    }
    SelectedUniform(keys, m, b, checked);
  }

  /** `b` is `before` with the checkboxes of `rows` set to `checked`. */
  ghost predicate SetRows(rows: seq<Row>, before: seq<bool>, b: seq<bool>, checked: bool) {
    |b| == |before|
    && forall i | 0 <= i < |b| :: b[i] == if i in Boxes(rows) then checked else before[i]
  }

  /** One step of the `forEach` of `setRegion`. */
  lemma SetRowsStep(rows: seq<Row>, k: nat, before: seq<bool>, b: seq<bool>, checked: bool)
    requires k < |rows| && rows[k].box < |b|
    requires SetRows(rows[..k], before, b, checked)
    ensures SetRows(rows[..k + 1], before, b[rows[k].box := checked], checked)
  {
    assert Boxes(rows[..k + 1]) == Boxes(rows[..k]) + [rows[k].box];
  }

  /** The rows `setRegion` walks: those of the bucket, or none for a region
      without one. Each names a peer's checkbox. */
  lemma RegionRowsInRange(peers: seq<Peer>, buckets: map<string, seq<Row>>, region: string)
    requires BucketMap(PeerKey, peers, buckets)
    ensures var rows := if region in buckets then buckets[region] else [];
      forall k | 0 <= k < |rows| :: rows[k].box < |peers|
  {
    if region in buckets {
      BucketRows(peers, region);
    }
  }

  /** Setting the checkboxes of those rows sets exactly the checkboxes of
      the peers filed under the region. */
  lemma SetRegionRows(peers: seq<Peer>, buckets: map<string, seq<Row>>, region: string,
                      before: seq<bool>, b: seq<bool>, checked: bool)
    requires BucketMap(PeerKey, peers, buckets) && |before| == |peers|
    requires SetRows(if region in buckets then buckets[region] else [], before, b, checked)
    ensures |b| == |peers|
    ensures forall i | 0 <= i < |b| :: b[i] == if RegionKey(peers[i].region) == region then checked else before[i]
  {
    if region !in buckets {
      GroupOfNewKey(PeerKey, peers, region);
    }
    var rows := Bucket(peers, region);
    assert rows == if region in buckets then buckets[region] else [];
    forall i | 0 <= i < |b|
      ensures b[i] == if RegionKey(peers[i].region) == region then checked else before[i]
    {
      OneBucketPerPeer(peers, i, region);
    }
  }

  /** What the `forEach` of lines 241-249 has built after the peers
      `peers`: `peerCheckboxes` and its key order, `regionToPeers` and its
      key order. */
  ghost predicate Registered(peers: seq<Peer>, m: map<string, nat>, order: seq<string>,
                             buckets: map<string, seq<Row>>, names: seq<string>) {
    BoxMap(peers, m) && order == Distinct(Ids(peers))
    && BucketMap(PeerKey, peers, buckets) && names == Distinct(Keys(PeerKey, peers))
  }

  /** One step of that `forEach`: register the peer at `i`. */
  lemma RegisterStep(peers: seq<Peer>, i: nat, m: map<string, nat>, order: seq<string>,
                     buckets: map<string, seq<Row>>, names: seq<string>,
                     m': map<string, nat>, order': seq<string>,
                     buckets': map<string, seq<Row>>, names': seq<string>)
    requires i < |peers| && Registered(peers[..i], m, order, buckets, names)
    requires m' == m[peers[i].id := i]
    requires order' == if peers[i].id in m then order else order + [peers[i].id]
    requires buckets' == Push(buckets, PeerKey(peers[i]), RowOf(peers, i))
    requires names' == if PeerKey(peers[i]) in buckets then names else names + [PeerKey(peers[i])]
    ensures Registered(peers[..i + 1], m', order', buckets', names')
  {
    var id := peers[i].id;
    IdsSnoc(peers, i);
    DistinctSnoc(Ids(peers[..i]), id);
    BoxMapStep(peers, i, m, m');
    KeysSnoc(PeerKey, peers, i);
    DistinctSnoc(Keys(PeerKey, peers[..i]), PeerKey(peers[i]));
    BucketMapStep(PeerKey, peers, i, buckets);
  }

  /** The tables the `forEach` of lines 241-249 fills in:
      `peerCheckboxes`, the order of its keys, `regionToPeers` and the
      order of its keys. */
  datatype Tables = Tables(boxOf: map<string, nat>, keyOrder: seq<string>,
                           buckets: map<string, seq<Row>>, regionNames: seq<string>)

  /** Register the peer at `i`: its id now names its checkbox, and its row
      is pushed onto the bucket of its region. */
  function AddPeer(t: Tables, peers: seq<Peer>, i: nat): Tables
    requires i < |peers|
  {
    var id := peers[i].id;
    var r := PeerKey(peers[i]);
    Tables(t.boxOf[id := i],
           if id in t.boxOf then t.keyOrder else t.keyOrder + [id],
           Push(t.buckets, r, RowOf(peers, i)),
           if r in t.buckets then t.regionNames else t.regionNames + [r])
  }

  /** The tables after registering every peer, in order. */
  function Tabulate(peers: seq<Peer>): Tables {
    if peers == [] then Tables(map[], [], map[], [])
    else
      var n := |peers| - 1;
      AddPeer(Tabulate(peers[..n]), peers, n)
  }

  /** The tables hold what `Registered` says they do. */
  lemma {:induction false} TabulateRegistered(peers: seq<Peer>)
    ensures var t := Tabulate(peers);
      Registered(peers, t.boxOf, t.keyOrder, t.buckets, t.regionNames)
    decreases |peers|
  {
    if peers != [] {
      var n := |peers| - 1;
      TabulateRegistered(peers[..n]);
      var t := Tabulate(peers[..n]);
      var t' := AddPeer(t, peers, n);
      assert peers[..n + 1] == peers;
      RegisterStep(peers, n, t.boxOf, t.keyOrder, t.buckets, t.regionNames,
                   t'.boxOf, t'.keyOrder, t'.buckets, t'.regionNames);
    }
  }

  lemma TabulateStep(peers: seq<Peer>, i: nat)
    requires i < |peers|
    ensures Tabulate(peers[..i + 1]) == AddPeer(Tabulate(peers[..i]), peers, i)
  {
    var p := peers[..i + 1];
    assert p[..i] == peers[..i];
    assert RowOf(p, i) == RowOf(peers, i);
  }

  /** Creating a missing bucket and then pushing onto it is `Push`. */
  lemma PushNew(buckets: map<string, seq<Row>>, r: string, row: Row)
    ensures (if r in buckets then buckets else buckets[r := []])[r := (if r in buckets then buckets else buckets[r := []])[r] + [row]]
      == Push(buckets, r, row)
  {
  }

  /** The initial `checked` flag of each peer's checkbox. */
  function InitialChecks(allow: set<string>, peers: seq<Peer>): (checks: seq<bool>)
    ensures |checks| == |peers|
    ensures forall k | 0 <= k < |peers| :: checks[k] == IsInitiallyChecked(allow, peers[k].id)
  {
    seq(|peers|, k requires 0 <= k < |peers| => IsInitiallyChecked(allow, peers[k].id))
  }

  lemma InitialChecksStep(allow: set<string>, peers: seq<Peer>, i: nat)
    requires i < |peers|
    ensures InitialChecks(allow, peers[..i + 1])
      == InitialChecks(allow, peers[..i]) + [IsInitiallyChecked(allow, peers[i].id)]
  {
  }

  /** The `forEach` of lines 241-249: each peer gets a checkbox, checked
      by the whitelist rule, registered under its id and pushed onto the
      bucket of its region. */
  method Register(peers: seq<Peer>, allow: set<string>)
    returns (a: array<bool>, m: map<string, nat>, order: seq<string>,
             buckets: map<string, seq<Row>>, names: seq<string>)
    ensures fresh(a) && a.Length == |peers|
    ensures forall i | 0 <= i < |peers| :: a[i] == IsInitiallyChecked(allow, peers[i].id)
    ensures Registered(peers, m, order, buckets, names)
  {
    var checks: seq<bool> := [];
    m := map[];
    order := [];
    buckets := map[];
    names := [];
    for i := 0 to |peers|
      invariant checks == InitialChecks(allow, peers[..i])
      invariant Tables(m, order, buckets, names) == Tabulate(peers[..i])
    {
      var id := peers[i].id;
      checks := checks + [IsInitiallyChecked(allow, id)];
      TabulateStep(peers, i);
      InitialChecksStep(allow, peers, i);
      PushNew(buckets, PeerKey(peers[i]), RowOf(peers, i));
      if id !in m {
        order := order + [id];
      }
      m := m[id := i];
      var r := RegionKey(peers[i].region);
      if r !in buckets {
        buckets := buckets[r := []];
        names := names + [r];
      }
      buckets := buckets[r := buckets[r] + [RowOf(peers, i)]];
    }
    assert peers[..|peers|] == peers;
    TabulateRegistered(peers);
    a := new bool[|peers|](k requires 0 <= k < |checks| => checks[k]);
  }

  /** The selection before any button is pressed: exactly the peers the
      whitelist rule checks, which is every peer when the whitelist is
      empty. */
  lemma InitialSelection(peers: seq<Peer>, m: map<string, nat>, order: seq<string>,
                         buckets: map<string, seq<Row>>, names: seq<string>, allow: set<string>)
    requires Registered(peers, m, order, buckets, names)
    ensures forall id ::
              id in Selected(order, m, InitialChecks(allow, peers))
              <==> id in Ids(peers) && IsInitiallyChecked(allow, id)
    ensures allow == {} ==> Selected(order, m, InitialChecks(allow, peers)) == order
  {
    var b := InitialChecks(allow, peers);
    DistinctSpec(Ids(peers));
    forall id | id in m ensures b[m[id]] == IsInitiallyChecked(allow, id) {
      assert IsLastBox(peers, id, m[id]);
    }
    if allow == {} {
      SelectedUniform(order, m, b, true);
    }
  }

  /** The `forEach` of `selectAllPeers`: set the registered checkbox of
      each id of `keys` to `checked`. */
  method CheckKeys(boxes: array<bool>, peers: seq<Peer>, m: map<string, nat>, keys: seq<string>, checked: bool)
    requires BoxMap(peers, m) && boxes.Length == |peers|
    requires forall k | 0 <= k < |keys| :: keys[k] in m
    modifies boxes
    ensures SetKeys(peers, m, keys, old(boxes[..]), boxes[..], checked)
  {
    ghost var before := boxes[..];
    for k := 0 to |keys|
      invariant SetKeys(peers, m, keys[..k], before, boxes[..], checked)
    {
      var id := keys[k];
      ghost var b := boxes[..];
      SetKeysStep(peers, m, keys, k, before, b, checked);
      boxes[m[id]] := checked;
      assert boxes[..] == b[m[id] := checked];
    }
    assert keys[..|keys|] == keys;
  }

  /** The `forEach` of `setRegion`: set the checkbox of each row to
      `checked`. */
  method CheckRows(boxes: array<bool>, rows: seq<Row>, checked: bool)
    requires forall k | 0 <= k < |rows| :: rows[k].box < boxes.Length
    modifies boxes
    ensures SetRows(rows, old(boxes[..]), boxes[..], checked)
  {
    ghost var before := boxes[..];
    for k := 0 to |rows|
      invariant SetRows(rows[..k], before, boxes[..], checked)
    {
      ghost var b := boxes[..];
      SetRowsStep(rows, k, before, b, checked);
      boxes[rows[k].box] := checked;
      assert boxes[..] == b[rows[k].box := checked];
    }
    assert rows[..|rows|] == rows;
  }

  class Panel {
    /** The peers of the reply, in the order they were given. */
    const peers: seq<Peer>
    /** The `checked` flags of the peer checkboxes, one per peer position. */
    const boxes: array<bool>
    /** `peerCheckboxes`: each id to the position of its checkbox. */
    const checkboxOf: map<string, nat>
    /** The order of `Object.keys(peerCheckboxes)`. */
    const keyOrder: seq<string>
    /** `regionToPeers`: each region key to its rows. */
    const regionToPeers: map<string, seq<Row>>
    /** The order of `Object.keys(regionToPeers)`. */
    const regionNames: seq<string>

    /** What the `forEach` over the peers leaves behind: every id maps to
        the checkbox of its last peer, every region key to its bucket, and
        the key orders are the orders of first insertion. */
    ghost predicate Valid() {
      boxes.Length == |peers|
      && Registered(peers, checkboxOf, keyOrder, regionToPeers, regionNames)
    }

    /** The `forEach` of lines 241-249: each peer gets a checkbox, checked
        by the whitelist rule, registered under its id and pushed onto the
        bucket of its region. */
    constructor (peers: seq<Peer>, whitelist: Value)
      ensures Valid() && this.peers == peers && fresh(boxes)
      ensures forall i | 0 <= i < |peers| :: boxes[i] == IsInitiallyChecked(WhitelistSet(whitelist), peers[i].id)
      ensures forall id :: id in SelectedIds() <==> id in Ids(peers) && IsInitiallyChecked(WhitelistSet(whitelist), id)
      ensures WhitelistSet(whitelist) == {} ==> SelectedIds() == keyOrder
    {
      var a, m, order, buckets, names := Register(peers, WhitelistSet(whitelist));
      assert a[..] == InitialChecks(WhitelistSet(whitelist), peers);
      InitialSelection(peers, m, order, buckets, names, WhitelistSet(whitelist));
      this.peers := peers;
      boxes := a;
      checkboxOf := m;
      keyOrder := order;
      regionToPeers := buckets;
      regionNames := names;
    }

    /** `getSelectedPeers` (lines 258-260): the registered ids whose
        checkbox is checked, in key order. */
    function SelectedIds(): (r: seq<string>)
      requires Valid()
      reads boxes
      ensures forall id :: id in r <==> id in checkboxOf && boxes[checkboxOf[id]]
      ensures NoDup(r)
    {
      DistinctSpec(Ids(peers));
      Selected(keyOrder, checkboxOf, boxes[..])
    }

    /** `selectAllPeers` (lines 250-252): every registered checkbox is set
        to `checked`; a checkbox of an earlier peer with a repeated id is
        not registered and keeps its state. */
    method SelectAll(checked: bool)
      requires Valid()
      modifies boxes
      ensures forall i | 0 <= i < boxes.Length ::
        boxes[i] == if checkboxOf[peers[i].id] == i then checked else old(boxes[i])
      ensures SelectedIds() == if checked then keyOrder else []
    {
      ghost var before := boxes[..];
      KeysRegistered(peers, checkboxOf);
      CheckKeys(boxes, peers, checkboxOf, keyOrder, checked);
      SetKeysAll(peers, checkboxOf, before, boxes[..], checked);
    }

    /** `setRegion` (lines 253-257): the checkboxes of the peers filed
        under `region` are set to `checked` and no other changes; an
        unknown region changes nothing. */
    method SetRegion(region: string, checked: bool)
      requires Valid()
      modifies boxes
      ensures forall i | 0 <= i < boxes.Length ::
        boxes[i] == if RegionKey(peers[i].region) == region then checked else old(boxes[i])
    {
      var rows := if region in regionToPeers then regionToPeers[region] else [];
      RegionRowsInRange(peers, regionToPeers, region);
      ghost var before := boxes[..];
      CheckRows(boxes, rows, checked);
      SetRegionRows(peers, regionToPeers, region, before, boxes[..], checked);
    }

    /** `regionOrder` (lines 291-295): the region keys, sorted by the
        comparator, each once. */
    function RegionOrder(): (order: seq<string>)
      requires Valid()
      ensures Sorted(order) && NoDup(order)
      ensures forall r :: r in order <==> r in regionToPeers
    {
      DistinctSpec(Keys(PeerKey, peers));
      SortRegionsSorted(regionNames);
      var order := SortRegions(regionNames);
      assert forall r :: r in order <==> r in multiset(regionNames);
      SortedNoDup(order);
      order
    }
  }
}
