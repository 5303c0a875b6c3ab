/**
 * The map data assembly: the joined partnership/store/partner rows a user
 * is entitled to, folded into one entry per store with the store's
 * partnerships nested inside.
 *
 * `Grouped` is the specification of the fold, stated per store id:
 * the stores are the distinct store ids in order of first appearance, and
 * the store with id `x` is built from the rows whose `store_id` is `x`.
 * `GroupRows` is the single-pass loop over a keyed accumulator, proved to
 * compute `Grouped`.
 */
module MapService {
  import opened Js
  import opened Models
  import opened Database

  /** One row of the joined query. */
  datatype Row = Row(
    store_id: Id, store_name: string, lat: Option<real>, lon: Option<real>,
    category: string, url: string,
    partner_id: Id, partner_name: string, partner_image: string,
    partnership_id: Id, short_description: string, long_description: string)

  /** The `partner` object nested in a partnership entry. */
  datatype PartnerRef = PartnerRef(id: Id, name: string, image: string)

  /** One entry of a store's `partnerships` list. */
  datatype Deal = Deal(id: Id, short_description: string, long_description: string, partner: PartnerRef)

  /** One element of the result: a store with its partnerships. */
  datatype StoreEntry = StoreEntry(
    id: Id, name: string, lat: Option<real>, lon: Option<real>,
    category: string, url: string, partnerships: seq<Deal>)

  /** The partnership entry a row contributes. */
  function DealOf(r: Row): Deal {
    Deal(r.partnership_id, r.short_description, r.long_description,
         PartnerRef(r.partner_id, r.partner_name, r.partner_image))
  }

  /** The store attributes a row carries, with no partnerships yet. */
  function StoreHead(r: Row): StoreEntry {
    StoreEntry(r.store_id, r.store_name, r.lat, r.lon, r.category, r.url, [])
  }

  /** The entries of a list of rows, in row order. */
  function Deals(rs: seq<Row>): seq<Deal> {
    seq(|rs|, j requires 0 <= j < |rs| => DealOf(rs[j]))
  }

  // ---------------------------------------------------------------------
  // Specification of the grouping
  // ---------------------------------------------------------------------

  /** The rows of one store, in row order. */
  function RowsFor(rows: seq<Row>, id: Id): (rs: seq<Row>)
    ensures |rs| <= |rows|
    ensures forall j :: 0 <= j < |rs| ==> rs[j].store_id == id
    decreases |rows|
  {
    if rows == [] then []
    else (if rows[0].store_id == id then [rows[0]] else []) + RowsFor(rows[1..], id)
  }

  /** Whether some row belongs to store `id`. */
  predicate Occurs(rows: seq<Row>, id: Id) {
    RowsFor(rows, id) != []
  }

  /** The store of every row occurs. */
  lemma {:induction false} OccursAt(rows: seq<Row>, k: nat)
    requires k < |rows|
    ensures Occurs(rows, rows[k].store_id)
    decreases k
  {
    if k > 0 {
      OccursAt(rows[1..], k - 1);
      assert rows[1..][k - 1] == rows[k];
    }
  }

  /** The entry for store `id`: attributes of its first row, one deal per row. */
  function StoreOf(rows: seq<Row>, id: Id): StoreEntry
    requires RowsFor(rows, id) != []
  {
    var rs := RowsFor(rows, id);
    StoreHead(rs[0]).(partnerships := Deals(rs))
  }

  /** The store ids of `rows` not in `seen`, each once, in order of first appearance. */
  function FirstSeen(rows: seq<Row>, seen: set<Id>): seq<Id>
    decreases |rows|
  {
    if rows == [] then []
    else if rows[0].store_id in seen then FirstSeen(rows[1..], seen)
    else [rows[0].store_id] + FirstSeen(rows[1..], seen + {rows[0].store_id})
  }

  /**
   * `FirstSeen` lists exactly the store ids that occur and are not in
   * `seen`, with no repetition.
   */
  lemma {:induction false} FirstSeenFacts(rows: seq<Row>, seen: set<Id>)
    ensures var ids := FirstSeen(rows, seen);
      && (forall x :: x in ids <==> x !in seen && Occurs(rows, x))
      && (forall a, b :: 0 <= a < b < |ids| ==> ids[a] != ids[b])
    decreases |rows|
  {
    if rows != [] {
      var h := rows[0].store_id;
      var seen' := if h in seen then seen else seen + {h};
      FirstSeenFacts(rows[1..], seen');
      forall x ensures Occurs(rows, x) <==> x == h || Occurs(rows[1..], x) {
        assert RowsFor(rows, x) == (if h == x then [rows[0]] else []) + RowsFor(rows[1..], x);
      }
      var tail := FirstSeen(rows[1..], seen');
      if h !in seen {
        var ids := [h] + tail;
        assert FirstSeen(rows, seen) == ids;
        forall a, b | 0 <= a < b < |ids| ensures ids[a] != ids[b] {
          assert ids[b] == tail[b - 1];
          if a > 0 {
            assert ids[a] == tail[a - 1];
          } else {
            assert tail[b - 1] in tail;
          }
        }
      }
    }
  }

  /** The distinct store ids of `rows`, in order of first appearance. */
  function StoreIds(rows: seq<Row>): seq<Id> {
    FirstSeen(rows, {})
  }

  /** The entries for the given store ids, in that order. */
  function StoresFor(rows: seq<Row>, ids: seq<Id>): (stores: seq<StoreEntry>)
    requires forall x :: x in ids ==> RowsFor(rows, x) != []
    ensures |stores| == |ids|
    ensures forall k :: 0 <= k < |ids| ==> stores[k] == StoreOf(rows, ids[k])
    decreases |ids|
  {
    if ids == [] then [] else [StoreOf(rows, ids[0])] + StoresFor(rows, ids[1..])
  }

  /** The grouping the map service and the `/map` route compute. */
  function Grouped(rows: seq<Row>): seq<StoreEntry> {
    FirstSeenFacts(rows, {});
    StoresFor(rows, StoreIds(rows))
  }

  // ---------------------------------------------------------------------
  // The loop
  // ---------------------------------------------------------------------

  /** Appending a row extends the rows of its own store only. */
  lemma {:induction false} RowsForSnoc(p: seq<Row>, r: Row, id: Id)
    ensures RowsFor(p + [r], id) == RowsFor(p, id) + (if r.store_id == id then [r] else [])
    decreases |p|
  {
    if p == [] {
      assert p + [r] == [r];
      assert [r][1..] == [];
    } else {
      assert (p + [r])[1..] == p[1..] + [r];
      assert (p + [r])[0] == p[0];
      RowsForSnoc(p[1..], r, id);
    }
  }

  /** Appending a row adds its store id at the end exactly when it is new. */
  lemma {:induction false} FirstSeenSnoc(p: seq<Row>, r: Row, seen: set<Id>)
    ensures FirstSeen(p + [r], seen)
         == if r.store_id in seen || RowsFor(p, r.store_id) != [] then FirstSeen(p, seen)
            else FirstSeen(p, seen) + [r.store_id]
    decreases |p|
  {
    if p == [] {
      assert p + [r] == [r];
      assert [r][1..] == [];
    } else {
      var h := p[0];
      assert (p + [r])[1..] == p[1..] + [r];
      assert (p + [r])[0] == h;
      if h.store_id in seen {
        FirstSeenSnoc(p[1..], r, seen);
      } else {
        FirstSeenSnoc(p[1..], r, seen + {h.store_id});
      }
    }
  }

  /** How the entry of one store changes when a row is appended. */
  lemma StoreOfSnoc(p: seq<Row>, r: Row, id: Id)
    requires RowsFor(p + [r], id) != []
    ensures RowsFor(p, id) == [] ==> (id == r.store_id
      && StoreOf(p + [r], id) == StoreHead(r).(partnerships := [DealOf(r)]))
    ensures RowsFor(p, id) != [] && id == r.store_id ==>
      StoreOf(p + [r], id) == StoreOf(p, id).(partnerships := StoreOf(p, id).partnerships + [DealOf(r)])
    ensures RowsFor(p, id) != [] && id != r.store_id ==> StoreOf(p + [r], id) == StoreOf(p, id)
  {
    RowsForSnoc(p, r, id);
    var rs := RowsFor(p, id);
    if id == r.store_id {
      assert Deals(rs + [r]) == Deals(rs) + [DealOf(r)];
    }
  }

  /**
   * The state of the loop after the prefix `p`: `order` lists the store ids
   * seen so far, and the map holds, for each of them, the entry the
   * specification gives for that prefix.
   */
  ghost predicate Accumulated(p: seq<Row>, order: seq<Id>, storesMap: map<Id, StoreEntry>) {
    && order == StoreIds(p)
    && (forall x :: x in storesMap <==> Occurs(p, x))
    && (forall x :: x in storesMap ==> Occurs(p, x) && storesMap[x] == StoreOf(p, x))
  }

  /** The first row of a new store opens its entry with one deal. */
  lemma AccumulateNew(p: seq<Row>, r: Row, order: seq<Id>, storesMap: map<Id, StoreEntry>)
    requires Accumulated(p, order, storesMap) && r.store_id !in storesMap
    ensures Accumulated(p + [r], order + [r.store_id],
                        storesMap[r.store_id := StoreHead(r).(partnerships := [DealOf(r)])])
  {
    var m' := storesMap[r.store_id := StoreHead(r).(partnerships := [DealOf(r)])];
    FirstSeenSnoc(p, r, {});
    forall x ensures x in m' <==> Occurs(p + [r], x) {
      RowsForSnoc(p, r, x);
    }
    forall x | x in m' ensures Occurs(p + [r], x) && m'[x] == StoreOf(p + [r], x) {
      RowsForSnoc(p, r, x);
      StoreOfSnoc(p, r, x);
    }
  }

  /** A further row of a known store appends one deal to its entry. */
  lemma AccumulateOld(p: seq<Row>, r: Row, order: seq<Id>, storesMap: map<Id, StoreEntry>)
    requires Accumulated(p, order, storesMap) && r.store_id in storesMap
    ensures var store := storesMap[r.store_id];
      Accumulated(p + [r], order,
                  storesMap[r.store_id := store.(partnerships := store.partnerships + [DealOf(r)])])
  {
    var store := storesMap[r.store_id];
    var m' := storesMap[r.store_id := store.(partnerships := store.partnerships + [DealOf(r)])];
    FirstSeenSnoc(p, r, {});
    forall x ensures x in m' <==> Occurs(p + [r], x) {
      RowsForSnoc(p, r, x);
    }
    forall x | x in m' ensures Occurs(p + [r], x) && m'[x] == StoreOf(p + [r], x) {
      RowsForSnoc(p, r, x);
      StoreOfSnoc(p, r, x);
    }
  }

  /** The map's values in insertion order: `Array.from(storesMap.values())`. */
  function ValuesInOrder(order: seq<Id>, storesMap: map<Id, StoreEntry>): (stores: seq<StoreEntry>)
    requires forall k :: 0 <= k < |order| ==> order[k] in storesMap
    ensures |stores| == |order|
    ensures forall k :: 0 <= k < |order| ==> stores[k] == storesMap[order[k]]
    decreases |order|
  {
    if order == [] then [] else [storesMap[order[0]]] + ValuesInOrder(order[1..], storesMap)
  }

  /** Once every row is folded in, the values in insertion order are the grouping. */
  lemma AccumulatedGrouped(rows: seq<Row>, order: seq<Id>, storesMap: map<Id, StoreEntry>)
    requires Accumulated(rows, order, storesMap)
    ensures forall k :: 0 <= k < |order| ==> order[k] in storesMap
    ensures ValuesInOrder(order, storesMap) == Grouped(rows)
  {
    FirstSeenFacts(rows, {});
    assert forall k :: 0 <= k < |order| ==> order[k] in order;
  }

  /**
   * `for (const row of rows)` over a keyed accumulator: the first row of a
   * store creates its entry, and every row pushes one deal onto its store.
   * `order` is the insertion order of the JavaScript Map.
   */
  method GroupRows(rows: seq<Row>) returns (stores: seq<StoreEntry>)
    ensures stores == Grouped(rows)
  {
    var order: seq<Id> := [];
    var storesMap: map<Id, StoreEntry> := map[];
    for i := 0 to |rows|
      invariant Accumulated(rows[..i], order, storesMap)
    {
      var row := rows[i];
      assert rows[..i + 1] == rows[..i] + [row];
      var store: StoreEntry;
      if row.store_id in storesMap {
        AccumulateOld(rows[..i], row, order, storesMap);
        store := storesMap[row.store_id];
      } else {
        AccumulateNew(rows[..i], row, order, storesMap);
        store := StoreHead(row);
        order := order + [row.store_id];
      }
      store := store.(partnerships := store.partnerships + [DealOf(row)]);
      storesMap := storesMap[row.store_id := store];
    }
    assert rows[..|rows|] == rows;
    AccumulatedGrouped(rows, order, storesMap);
    stores := ValuesInOrder(order, storesMap);
  }

  // ---------------------------------------------------------------------
  // What the grouping guarantees
  // ---------------------------------------------------------------------

  /** No rows, no stores. */
  lemma GroupedEmpty()
    ensures Grouped([]) == []
  {
  }

  /** The entries are those of the distinct store ids, in the same order. */
  lemma GroupedIds(rows: seq<Row>)
    ensures |Grouped(rows)| == |StoreIds(rows)|
    ensures forall i :: 0 <= i < |Grouped(rows)| ==> Grouped(rows)[i].id == StoreIds(rows)[i]
  {
    FirstSeenFacts(rows, {});
    var ids := StoreIds(rows);
    forall i | 0 <= i < |ids| ensures Grouped(rows)[i].id == ids[i] {
      assert ids[i] in ids;
      assert RowsFor(rows, ids[i])[0].store_id == ids[i];
    }
  }

  /** No two entries share a store id. */
  lemma GroupedDistinct(rows: seq<Row>)
    ensures forall i, j :: 0 <= i < j < |Grouped(rows)| ==> Grouped(rows)[i].id != Grouped(rows)[j].id
  {
    GroupedIds(rows);
    FirstSeenFacts(rows, {});
  }

  /** Every row's store has an entry. */
  lemma GroupedCoversRows(rows: seq<Row>, k: nat)
    requires k < |rows|
    ensures exists i :: 0 <= i < |Grouped(rows)| && Grouped(rows)[i].id == rows[k].store_id
  {
    GroupedIds(rows);
    FirstSeenFacts(rows, {});
    var ids := StoreIds(rows);
    OccursAt(rows, k);
    assert rows[k].store_id in ids;
    var i :| 0 <= i < |ids| && ids[i] == rows[k].store_id;
    assert Grouped(rows)[i].id == rows[k].store_id;
  }

  /** Every entry's store has a row: the entry's first row. */
  lemma GroupedFromFirstRow(rows: seq<Row>, i: nat)
    requires i < |Grouped(rows)|
    ensures Occurs(rows, Grouped(rows)[i].id)
    ensures rows[FirstIndex(rows, Grouped(rows)[i].id)].store_id == Grouped(rows)[i].id
  {
    GroupedIds(rows);
    FirstSeenFacts(rows, {});
    assert StoreIds(rows)[i] in StoreIds(rows);
  }

  /** The index of the first row of store `id`. */
  ghost function FirstIndex(rows: seq<Row>, id: Id): (k: nat)
    requires Occurs(rows, id)
    ensures k < |rows| && rows[k].store_id == id
    decreases |rows|
  {
    if rows[0].store_id == id then 0 else 1 + FirstIndex(rows[1..], id)
  }

  /** The first row of a store is the first of its rows. */
  lemma {:induction false} FirstIndexRow(rows: seq<Row>, id: Id)
    requires Occurs(rows, id)
    ensures RowsFor(rows, id)[0] == rows[FirstIndex(rows, id)]
    decreases |rows|
  {
    if rows[0].store_id != id {
      FirstIndexRow(rows[1..], id);
    }
  }

  /** Past the first row, the first index of another store moves by one (a step of AscendShift). */
  lemma FirstIndexTail(rows: seq<Row>, x: Id)
    requires rows != [] && rows[0].store_id != x && Occurs(rows[1..], x)
    ensures Occurs(rows, x) && FirstIndex(rows, x) == 1 + FirstIndex(rows[1..], x)
  {
  }

  /** No row before `FirstIndex` belongs to the store. */
  lemma {:induction false} FirstIndexIsFirst(rows: seq<Row>, id: Id, j: nat)
    requires Occurs(rows, id) && j < FirstIndex(rows, id)
    ensures rows[j].store_id != id
    decreases j
  {
    if j > 0 {
      FirstIndexIsFirst(rows[1..], id, j - 1);
    }
  }

  /** The ids are listed in increasing order of their first rows. */
  ghost predicate FirstRowsAscend(rows: seq<Row>, ids: seq<Id>) {
    forall a, b :: 0 <= a < b < |ids| ==>
      Occurs(rows, ids[a]) && Occurs(rows, ids[b]) && FirstIndex(rows, ids[a]) < FirstIndex(rows, ids[b])
  }

  /** Ids that occur after the first row, none of them its store, move one row later (a step of AscendKeep and AscendCons). */
  lemma AscendShift(rows: seq<Row>, tail: seq<Id>)
    requires rows != []
    requires forall k :: 0 <= k < |tail| ==> tail[k] != rows[0].store_id && Occurs(rows[1..], tail[k])
    ensures forall k :: 0 <= k < |tail| ==>
      Occurs(rows, tail[k]) && FirstIndex(rows, tail[k]) == 1 + FirstIndex(rows[1..], tail[k])
  {
    forall k | 0 <= k < |tail|
      ensures Occurs(rows, tail[k]) && FirstIndex(rows, tail[k]) == 1 + FirstIndex(rows[1..], tail[k])
    {
      FirstIndexTail(rows, tail[k]);
    }
  }

  /** Ids that all occur after the first row keep their order when the first row is put back. */
  lemma AscendKeep(rows: seq<Row>, tail: seq<Id>)
    requires rows != []
    requires forall k :: 0 <= k < |tail| ==> tail[k] != rows[0].store_id && Occurs(rows[1..], tail[k])
    requires FirstRowsAscend(rows[1..], tail)
    ensures FirstRowsAscend(rows, tail)
  {
    AscendShift(rows, tail);
    forall a, b | 0 <= a < b < |tail|
      ensures Occurs(rows, tail[a]) && Occurs(rows, tail[b]) && FirstIndex(rows, tail[a]) < FirstIndex(rows, tail[b])
    {
      assert FirstIndex(rows[1..], tail[a]) < FirstIndex(rows[1..], tail[b]);
    }
  }

  /** An id whose first row comes before those of ascending ids can be put in front of them (the last step of AscendCons). */
  lemma AscendFront(rows: seq<Row>, x: Id, tail: seq<Id>)
    requires Occurs(rows, x)
    requires FirstRowsAscend(rows, tail)
    requires forall k :: 0 <= k < |tail| ==> Occurs(rows, tail[k]) && FirstIndex(rows, x) < FirstIndex(rows, tail[k])
    ensures FirstRowsAscend(rows, [x] + tail)
  {
    var ids := [x] + tail;
    forall a, b | 0 <= a < b < |ids|
      ensures Occurs(rows, ids[a]) && Occurs(rows, ids[b]) && FirstIndex(rows, ids[a]) < FirstIndex(rows, ids[b])
    {
      assert ids[b] == tail[b - 1];
      if a > 0 {
        assert ids[a] == tail[a - 1];
      }
    }
  }

  /**
   * Ids that all occur after the first row, none of them the first row's
   * store, keep their order when the first row is put back, and the first
   * row's store can be put in front of them.
   */
  lemma AscendCons(rows: seq<Row>, tail: seq<Id>)
    requires rows != []
    requires forall k :: 0 <= k < |tail| ==> tail[k] != rows[0].store_id && Occurs(rows[1..], tail[k])
    requires FirstRowsAscend(rows[1..], tail)
    ensures FirstRowsAscend(rows, tail)
    ensures FirstRowsAscend(rows, [rows[0].store_id] + tail)
  {
    AscendKeep(rows, tail);
    AscendShift(rows, tail);
    assert Occurs(rows, rows[0].store_id) && FirstIndex(rows, rows[0].store_id) == 0;
    AscendFront(rows, rows[0].store_id, tail);
  }

  /** `FirstSeen` lists store ids in increasing order of their first row. */
  lemma {:induction false} FirstSeenOrdered(rows: seq<Row>, seen: set<Id>)
    ensures FirstRowsAscend(rows, FirstSeen(rows, seen))
    decreases |rows|
  {
    if rows != [] {
      var h := rows[0].store_id;
      var seen' := if h in seen then seen else seen + {h};
      var tail := FirstSeen(rows[1..], seen');
      FirstSeenOrdered(rows[1..], seen');
      FirstSeenFacts(rows[1..], seen');
      assert forall k :: 0 <= k < |tail| ==> tail[k] in tail;
      AscendCons(rows, tail);
    }
  }

  /** Stores appear in the order in which their first rows appear. */
  lemma GroupedOrder(rows: seq<Row>)
    ensures var g := Grouped(rows);
      forall i, j :: 0 <= i < j < |g| ==>
        Occurs(rows, g[i].id) && Occurs(rows, g[j].id)
        && FirstIndex(rows, g[i].id) < FirstIndex(rows, g[j].id)
  {
    GroupedIds(rows);
    FirstSeenOrdered(rows, {});
  }

  /**
   * The entry of each store: its attributes come from the store's first
   * row (later rows never overwrite them), and its partnerships are the
   * store's rows in row order, each with the partner of that same row.
   */
  lemma GroupedEntry(rows: seq<Row>, i: nat)
    requires i < |Grouped(rows)|
    ensures var s := Grouped(rows)[i];
      var rs := RowsFor(rows, s.id);
      && rs != []
      && var first := rows[FirstIndex(rows, s.id)];
      && s.name == first.store_name && s.lat == first.lat && s.lon == first.lon
      && s.category == first.category && s.url == first.url
      && |s.partnerships| == |rs|
      && forall j :: 0 <= j < |rs| ==>
           && s.partnerships[j].id == rs[j].partnership_id
           && s.partnerships[j].short_description == rs[j].short_description
           && s.partnerships[j].long_description == rs[j].long_description
           && s.partnerships[j].partner == PartnerRef(rs[j].partner_id, rs[j].partner_name, rs[j].partner_image)
  {
    GroupedIds(rows);
    FirstSeenFacts(rows, {});
    var id := StoreIds(rows)[i];
    assert id in StoreIds(rows);
    FirstIndexRow(rows, id);
    assert Grouped(rows)[i] == StoreOf(rows, id);
  }

  /** The number of partnership entries over all stores. */
  function TotalDeals(stores: seq<StoreEntry>): nat
    decreases |stores|
  {
    if stores == [] then 0 else |stores[0].partnerships| + TotalDeals(stores[1..])
  }

  /** The number of rows belonging to the given store ids. */
  function CountFor(rows: seq<Row>, ids: seq<Id>): nat
    decreases |ids|
  {
    if ids == [] then 0 else |RowsFor(rows, ids[0])| + CountFor(rows, ids[1..])
  }

  /** How many times `x` occurs in `ids`. */
  function Occurrences(ids: seq<Id>, x: Id): nat
    decreases |ids|
  {
    if ids == [] then 0 else (if ids[0] == x then 1 else 0) + Occurrences(ids[1..], x)
  }

  lemma {:induction false} TotalIsCount(rows: seq<Row>, ids: seq<Id>)
    requires forall x :: x in ids ==> RowsFor(rows, x) != []
    ensures TotalDeals(StoresFor(rows, ids)) == CountFor(rows, ids)
    decreases |ids|
  {
    if ids != [] {
      TotalIsCount(rows, ids[1..]);
      assert StoresFor(rows, ids)[1..] == StoresFor(rows, ids[1..]);
    }
  }

  lemma {:induction false} CountCons(r: Row, t: seq<Row>, ids: seq<Id>)
    ensures CountFor([r] + t, ids) == CountFor(t, ids) + Occurrences(ids, r.store_id)
    decreases |ids|
  {
    assert ([r] + t)[1..] == t;
    if ids != [] {
      CountCons(r, t, ids[1..]);
    }
  }

  lemma {:induction false} CountNone(ids: seq<Id>)
    ensures CountFor([], ids) == 0
    decreases |ids|
  {
    if ids != [] {
      CountNone(ids[1..]);
    }
  }

  lemma {:induction false} OccursOnce(ids: seq<Id>, x: Id)
    requires forall a, b :: 0 <= a < b < |ids| ==> ids[a] != ids[b]
    ensures Occurrences(ids, x) == if x in ids then 1 else 0
    decreases |ids|
  {
    if ids != [] {
      OccursOnce(ids[1..], x);
      if ids[0] == x {
        assert x !in ids[1..];
      }
    }
  }

  lemma {:induction false} CountCovers(rows: seq<Row>, ids: seq<Id>)
    requires forall a, b :: 0 <= a < b < |ids| ==> ids[a] != ids[b]
    requires forall j :: 0 <= j < |rows| ==> rows[j].store_id in ids
    ensures CountFor(rows, ids) == |rows|
    decreases |rows|
  {
    if rows == [] {
      CountNone(ids);
    } else {
      CountCovers(rows[1..], ids);
      assert rows == [rows[0]] + rows[1..];
      CountCons(rows[0], rows[1..], ids);
      OccursOnce(ids, rows[0].store_id);
    }
  }

  /** Every row becomes exactly one partnership entry: the lengths sum to the row count. */
  lemma GroupedCount(rows: seq<Row>)
    ensures TotalDeals(Grouped(rows)) == |rows|
  {
    var ids := StoreIds(rows);
    FirstSeenFacts(rows, {});
    TotalIsCount(rows, ids);
    forall j | 0 <= j < |rows| ensures rows[j].store_id in ids {
      OccursAt(rows, j);
    }
    CountCovers(rows, ids);
  }

  // ---------------------------------------------------------------------
  // The selection in front of the grouping
  // ---------------------------------------------------------------------

  /** The joined row for one partnership, its store and its partner. */
  function JoinedRow(s: StoreRow, p: Partner, ps: Partnership): Row {
    Row(ps.store_id, s.store.name, s.store.lat, s.store.lon, s.store.category, s.url,
        ps.partner_id, p.name, p.image, ps.id, ps.short_description, ps.long_description)
  }

  /** Partnership `psid` has a store and a partner to join with. */
  predicate Joinable(psid: Id, stores: map<Id, StoreRow>, partners: map<Id, Partner>,
                     partnerships: map<Id, Partnership>)
  {
    && psid in partnerships
    && partnerships[psid].store_id in stores
    && partnerships[psid].partner_id in partners
  }

  /** The row the joins produce for partnership `psid`. */
  function JoinOf(psid: Id, stores: map<Id, StoreRow>, partners: map<Id, Partner>,
                  partnerships: map<Id, Partnership>): Row
    requires Joinable(psid, stores, partners, partnerships)
  {
    JoinedRow(stores[partnerships[psid].store_id], partners[partnerships[psid].partner_id], partnerships[psid])
  }

  /** Row `r` is the join of the partnership it names, its store and its partner. */
  predicate IsJoinOf(r: Row, stores: map<Id, StoreRow>, partners: map<Id, Partner>,
                     partnerships: map<Id, Partnership>)
  {
    && Joinable(r.partnership_id, stores, partners, partnerships)
    && r == JoinOf(r.partnership_id, stores, partners, partnerships)
  }

  /** Partnership `psid` joins partner `pid` and a store that has coordinates. */
  predicate OnMap(pid: Id, psid: Id, stores: map<Id, StoreRow>, partners: map<Id, Partner>,
                  partnerships: map<Id, Partnership>)
  {
    && psid in partnerships
    && partnerships[psid].partner_id == pid
    && partnerships[psid].store_id in stores
    && pid in partners
    && stores[partnerships[psid].store_id].store.lat.Some?
    && stores[partnerships[psid].store_id].store.lon.Some?
  }

  /** The rows for one partner id, scanning the partnerships in the engine's order. */
  function PartnerRows(pid: Id, scan: seq<Id>, stores: map<Id, StoreRow>,
                       partners: map<Id, Partner>, partnerships: map<Id, Partnership>): (rows: seq<Row>)
    requires Distinct(scan) && PartnershipsKeyed(partnerships)
    ensures rows != [] ==> pid in partners
    ensures forall j :: 0 <= j < |rows| ==>
      && OnMap(pid, rows[j].partnership_id, stores, partners, partnerships)
      && IsJoinOf(rows[j], stores, partners, partnerships)
    ensures forall j :: 0 <= j < |rows| ==>
      && rows[j].partnership_id in scan
      && rows[j].partner_id == pid
      && rows[j].store_id in stores
      && rows[j].lat.Some? && rows[j].lon.Some?
    ensures forall i, j :: 0 <= i < j < |rows| ==> rows[i].partnership_id != rows[j].partnership_id
    decreases |scan|
  {
    if scan == [] then []
    else
      var psid := scan[0];
      var tail := PartnerRows(pid, scan[1..], stores, partners, partnerships);
      assert psid !in scan[1..];
      assert forall j :: 0 <= j < |tail| ==> tail[j].partnership_id in scan;
      if OnMap(pid, psid, stores, partners, partnerships)
      then [JoinedRow(stores[partnerships[psid].store_id], partners[pid], partnerships[psid])] + tail
      else tail
  }

  /** `unnest(u.college_auth)` joined with the partnerships, one partner id after another. */
  function UnnestRows(pids: seq<Id>, scan: seq<Id>, stores: map<Id, StoreRow>,
                      partners: map<Id, Partner>, partnerships: map<Id, Partnership>): (rows: seq<Row>)
    requires Distinct(scan) && PartnershipsKeyed(partnerships)
    ensures forall j :: 0 <= j < |rows| ==>
      && OnMap(rows[j].partner_id, rows[j].partnership_id, stores, partners, partnerships)
      && IsJoinOf(rows[j], stores, partners, partnerships)
    ensures forall j :: 0 <= j < |rows| ==>
      && rows[j].partnership_id in scan
      && rows[j].partner_id in pids && rows[j].partner_id in partners
      && rows[j].store_id in stores
      && rows[j].lat.Some? && rows[j].lon.Some?
    decreases |pids|
  {
    if pids == [] then []
    else PartnerRows(pids[0], scan, stores, partners, partnerships)
         + UnnestRows(pids[1..], scan, stores, partners, partnerships)
  }

  /**
   * The query of `getUserPartnershipsData`: the user's `college_auth`
   * (no user or a NULL list unnests to nothing), each partnership of those
   * partners, its store and its partner, for stores with both coordinates.
   */
  function SelectRows(users: map<Id, User>, stores: map<Id, StoreRow>, partners: map<Id, Partner>,
                      partnerships: map<Id, Partnership>, userId: Id, scan: seq<Id>): (rows: seq<Row>)
    requires ScanOf(scan, partnerships) && PartnershipsKeyed(partnerships)
    ensures userId !in users ==> rows == []
    ensures forall j :: 0 <= j < |rows| ==>
      && OnMap(rows[j].partner_id, rows[j].partnership_id, stores, partners, partnerships)
      && IsJoinOf(rows[j], stores, partners, partnerships)
    ensures forall j :: 0 <= j < |rows| ==>
      && rows[j].partnership_id in partnerships
      && rows[j].partner_id in PartnerIdsOf(users, userId)
      && rows[j].lat.Some? && rows[j].lon.Some?
  {
    UnnestRows(PartnerIdsOf(users, userId), scan, stores, partners, partnerships)
  }

  lemma {:induction false} PartnerRowsComplete(pid: Id, psid: Id, scan: seq<Id>, stores: map<Id, StoreRow>,
                                               partners: map<Id, Partner>, partnerships: map<Id, Partnership>)
    requires Distinct(scan) && PartnershipsKeyed(partnerships)
    requires psid in scan && OnMap(pid, psid, stores, partners, partnerships)
    ensures JoinOf(psid, stores, partners, partnerships) in PartnerRows(pid, scan, stores, partners, partnerships)
    decreases |scan|
  {
    if scan[0] != psid {
      PartnerRowsComplete(pid, psid, scan[1..], stores, partners, partnerships);
    }
  }

  lemma {:induction false} UnnestRowsComplete(pids: seq<Id>, pid: Id, psid: Id, scan: seq<Id>,
                                              stores: map<Id, StoreRow>, partners: map<Id, Partner>,
                                              partnerships: map<Id, Partnership>)
    requires Distinct(scan) && PartnershipsKeyed(partnerships)
    requires pid in pids && psid in scan && OnMap(pid, psid, stores, partners, partnerships)
    ensures JoinOf(psid, stores, partners, partnerships) in UnnestRows(pids, scan, stores, partners, partnerships)
    decreases |pids|
  {
    if pids[0] == pid {
      PartnerRowsComplete(pid, psid, scan, stores, partners, partnerships);
    } else {
      UnnestRowsComplete(pids[1..], pid, psid, scan, stores, partners, partnerships);
    }
  }

  /**
   * Nothing the user is entitled to is missed: every partnership of one of
   * the user's partners whose store has both coordinates yields its row.
   */
  lemma SelectRowsComplete(users: map<Id, User>, stores: map<Id, StoreRow>, partners: map<Id, Partner>,
                           partnerships: map<Id, Partnership>, userId: Id, scan: seq<Id>, psid: Id)
    requires ScanOf(scan, partnerships) && PartnershipsKeyed(partnerships)
    requires psid in partnerships
    requires partnerships[psid].partner_id in PartnerIdsOf(users, userId)
    requires OnMap(partnerships[psid].partner_id, psid, stores, partners, partnerships)
    ensures JoinOf(psid, stores, partners, partnerships) in SelectRows(users, stores, partners, partnerships, userId, scan)
  {
    UnnestRowsComplete(PartnerIdsOf(users, userId), partnerships[psid].partner_id, psid, scan,
                       stores, partners, partnerships);
  }

  /**
   * Only what the user is entitled to is selected: every row is the join of
   * an existing partnership whose partner is in the user's `college_auth`
   * and whose store has both coordinates.
   */
  lemma SelectRowsSound(users: map<Id, User>, stores: map<Id, StoreRow>, partners: map<Id, Partner>,
                        partnerships: map<Id, Partnership>, userId: Id, scan: seq<Id>, j: nat)
    requires ScanOf(scan, partnerships) && PartnershipsKeyed(partnerships)
    requires j < |SelectRows(users, stores, partners, partnerships, userId, scan)|
    ensures var r := SelectRows(users, stores, partners, partnerships, userId, scan)[j];
      && r.partnership_id in partnerships
      && partnerships[r.partnership_id].partner_id in PartnerIdsOf(users, userId)
      && partnerships[r.partnership_id].store_id in stores
      && stores[partnerships[r.partnership_id].store_id].store.lat.Some?
      && stores[partnerships[r.partnership_id].store_id].store.lon.Some?
      && r == JoinOf(r.partnership_id, stores, partners, partnerships)
  {
    var rows := SelectRows(users, stores, partners, partnerships, userId, scan);
    assert OnMap(rows[j].partner_id, rows[j].partnership_id, stores, partners, partnerships);
    assert IsJoinOf(rows[j], stores, partners, partnerships);
  }

  /** Every store entry is built from one of the rows it groups. */
  lemma GroupedFromRows(rows: seq<Row>, i: nat)
    requires i < |Grouped(rows)|
    ensures exists k :: (0 <= k < |rows| && rows[k].store_id == Grouped(rows)[i].id
      && rows[k].lat == Grouped(rows)[i].lat && rows[k].lon == Grouped(rows)[i].lon)
  {
    GroupedEntry(rows, i);
    var k := FirstIndex(rows, Grouped(rows)[i].id);
    assert rows[k].lat == Grouped(rows)[i].lat;
  }

  /**
   * `getUserPartnershipsData`: run the query, answer `[]` when it returns no
   * rows, otherwise group the rows. Every store it returns has coordinates,
   * and an unknown user gets `[]`.
   */
  method GetUserPartnershipsData(db: Db, userId: Id, scan: seq<Id>) returns (stores: seq<StoreEntry>)
    requires db.Valid() && ScanOf(scan, db.partnerships)
    ensures stores == Grouped(SelectRows(db.users, db.stores, db.partners, db.partnerships, userId, scan))
    ensures userId !in db.users ==> stores == []
    ensures forall i :: 0 <= i < |stores| ==> stores[i].lat.Some? && stores[i].lon.Some?
  {
    var rows := SelectRows(db.users, db.stores, db.partners, db.partnerships, userId, scan);
    if |rows| == 0 {
      return [];
    }
    stores := GroupRows(rows);
    forall i | 0 <= i < |stores| ensures stores[i].lat.Some? && stores[i].lon.Some? {
      GroupedFromRows(rows, i);
    }
  }
}
