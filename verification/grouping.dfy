/** The row grouping of `GetPartsForModel`: the rows of the vehicle–part join are folded into
    one vehicle per `vehicle_id`, each holding its parts in row order. The query itself is not
    modelled; the rows arrive as a sequence whose elements are `None` where `Scan` fails. */
module Grouping {
  import opened Results
  import opened Models

  /** One row of the join, as `Scan` reads it. */
  datatype ScannedRow = ScannedRow(vehicleId: string, year: int, model: string, brand: string, part: Part)

  /** The identifiers of the rows. */
  function Ids(rows: seq<ScannedRow>): set<string> {
    set i | 0 <= i < |rows| :: rows[i].vehicleId
  }

  /** Reference definition: the parts of the rows with identifier `k`, in row order. */
  function PartsOf(rows: seq<ScannedRow>, k: string): seq<Part> {
    if rows == [] then []
    else PartsOf(rows[..|rows| - 1], k) + (if rows[|rows| - 1].vehicleId == k then [rows[|rows| - 1].part] else [])
  }

  /** The rows with an identifier other than `k`, in order. */
  function Without(rows: seq<ScannedRow>, k: string): seq<ScannedRow> {
    if rows == [] then []
    else Without(rows[..|rows| - 1], k) + (if rows[|rows| - 1].vehicleId != k then [rows[|rows| - 1]] else [])
  }

  /** `rows[i]` is the first row of its group. */
  predicate FirstOfGroup(rows: seq<ScannedRow>, i: nat)
    requires i < |rows|
  {
    forall j :: 0 <= j < i ==> rows[j].vehicleId != rows[i].vehicleId
  }

  /** The vehicle a group starts as: only the scanned columns and the identifier are set. */
  function NewGroup(row: ScannedRow): Vehicle {
    Vehicle("", row.brand, row.model, "", row.year, "", row.vehicleId, [row.part])
  }

  /** One iteration of the loop: the row's part is appended to its group, which is created from
      the row if it is new. No other group changes. */
  function AddRow(m: map<string, Vehicle>, row: ScannedRow): (r: map<string, Vehicle>)
    ensures r.Keys == m.Keys + {row.vehicleId}
    ensures forall k :: k in m && k != row.vehicleId ==> r[k] == m[k]
    ensures row.vehicleId in m ==>
      r[row.vehicleId] == m[row.vehicleId].(parts := m[row.vehicleId].parts + [row.part])
    ensures row.vehicleId !in m ==> r[row.vehicleId] == NewGroup(row)
  {
    var k := row.vehicleId;
    if k in m then m[k := m[k].(parts := m[k].parts + [row.part])]
    else m[k := NewGroup(row)]
  }

  /** The loop over all rows. There is one group per identifier of the rows, holding exactly
      the parts of the rows with that identifier in row order; the year, model and brand are
      those of the group's first row, and the columns the query does not select stay empty. */
  function GroupRows(rows: seq<ScannedRow>): (m: map<string, Vehicle>)
    ensures m.Keys == Ids(rows)
    ensures forall k :: k in m ==> m[k].identifier == k && m[k].parts == PartsOf(rows, k)
    ensures forall k :: k in m ==> m[k].name == "" && m[k].vehicleType == "" && m[k].url == ""
    ensures forall i :: 0 <= i < |rows| && FirstOfGroup(rows, i) ==>
      var g := m[rows[i].vehicleId];
      g.year == rows[i].year && g.model == rows[i].model && g.brand == rows[i].brand
    decreases |rows|
  {
    if rows == [] then map[]
    else
      var init := rows[..|rows| - 1];
      var row := rows[|rows| - 1];
      var m0 := GroupRows(init);
      var m := AddRow(m0, row);
      PartsOfAbsent(init, row.vehicleId);
      IdsLast(rows);
      GroupParts(rows, init, row, m0, m);
      GroupFirstRows(rows, init, row, m0, m);
      m
  }

  /** The inductive step for the parts of the groups. */
  lemma GroupParts(rows: seq<ScannedRow>, init: seq<ScannedRow>, row: ScannedRow,
                    m0: map<string, Vehicle>, m: map<string, Vehicle>)
    requires rows != [] && init == rows[..|rows| - 1] && row == rows[|rows| - 1]
    requires forall k :: k in m0 ==> m0[k].identifier == k && m0[k].parts == PartsOf(init, k)
    requires forall k :: k in m0 ==> m0[k].name == "" && m0[k].vehicleType == "" && m0[k].url == ""
    requires m == AddRow(m0, row)
    requires row.vehicleId !in m0 ==> PartsOf(init, row.vehicleId) == []
    ensures forall k :: k in m ==> m[k].identifier == k && m[k].parts == PartsOf(rows, k)
    ensures forall k :: k in m ==> m[k].name == "" && m[k].vehicleType == "" && m[k].url == ""
  {
    forall k | k in m
      ensures m[k].identifier == k && m[k].parts == PartsOf(rows, k)
      ensures m[k].name == "" && m[k].vehicleType == "" && m[k].url == ""
    {
      var tail: seq<Part> := if row.vehicleId == k then [row.part] else [];
      assert PartsOf(rows, k) == PartsOf(init, k) + tail;
      if k != row.vehicleId {
        assert m[k] == m0[k];
        assert PartsOf(init, k) + tail == PartsOf(init, k);
      } else if k in m0 {
        assert m[k].parts == m0[k].parts + [row.part];
      } else {
        assert m[k] == NewGroup(row);
        assert PartsOf(init, k) + tail == [row.part];
      }
    }
  }

  /** The inductive step for the first rows of the groups. */
  lemma GroupFirstRows(rows: seq<ScannedRow>, init: seq<ScannedRow>, row: ScannedRow,
                        m0: map<string, Vehicle>, m: map<string, Vehicle>)
    requires rows != [] && init == rows[..|rows| - 1] && row == rows[|rows| - 1]
    requires m0.Keys == Ids(init)
    requires forall i :: 0 <= i < |init| && FirstOfGroup(init, i) ==>
      var g := m0[init[i].vehicleId];
      g.year == init[i].year && g.model == init[i].model && g.brand == init[i].brand
    requires m == AddRow(m0, row)
    ensures forall i :: 0 <= i < |rows| && FirstOfGroup(rows, i) ==>
      var g := m[rows[i].vehicleId];
      g.year == rows[i].year && g.model == rows[i].model && g.brand == rows[i].brand
  {
    forall i | 0 <= i < |rows| && FirstOfGroup(rows, i)
      ensures m[rows[i].vehicleId].year == rows[i].year && m[rows[i].vehicleId].model == rows[i].model
        && m[rows[i].vehicleId].brand == rows[i].brand
    {
      GroupFirstRow(rows, init, row, m0, m, i);
    }
  }

  lemma GroupFirstRow(rows: seq<ScannedRow>, init: seq<ScannedRow>, row: ScannedRow,
                      m0: map<string, Vehicle>, m: map<string, Vehicle>, i: nat)
    requires rows != [] && init == rows[..|rows| - 1] && row == rows[|rows| - 1]
    requires m0.Keys == Ids(init)
    requires forall i :: 0 <= i < |init| && FirstOfGroup(init, i) ==>
      var g := m0[init[i].vehicleId];
      g.year == init[i].year && g.model == init[i].model && g.brand == init[i].brand
    requires m == AddRow(m0, row)
    requires i < |rows| && FirstOfGroup(rows, i)
    ensures m[rows[i].vehicleId].year == rows[i].year && m[rows[i].vehicleId].model == rows[i].model
      && m[rows[i].vehicleId].brand == rows[i].brand
  {
    if i < |init| {
      assert init[i] == rows[i];
      assert FirstOfGroup(init, i) by {
        forall j | 0 <= j < i ensures init[j].vehicleId != init[i].vehicleId {
          assert init[j] == rows[j];
        }
      }
    }
  }

  lemma {:induction false} PartsOfAbsent(rows: seq<ScannedRow>, k: string)
    ensures k !in Ids(rows) ==> PartsOf(rows, k) == []
    decreases |rows|
  {
    if rows != [] && k !in Ids(rows) {
      var init := rows[..|rows| - 1];
      assert Ids(init) <= Ids(rows) by {
        forall x | x in Ids(init) ensures x in Ids(rows) {
          var i :| 0 <= i < |init| && init[i].vehicleId == x;
          assert rows[i] == init[i];
        }
      }
      assert rows[|rows| - 1].vehicleId in Ids(rows);
      PartsOfAbsent(init, k);
    }
  }

  /** The parts of a group are the part of every row with its identifier, in order: every row
      lands in exactly the group of its own identifier. */
  lemma {:induction false} PartsOfGroups(rows: seq<ScannedRow>)
    ensures forall i :: 0 <= i < |rows| ==> rows[i].vehicleId in GroupRows(rows)
    ensures forall i :: 0 <= i < |rows| ==> rows[i].part in GroupRows(rows)[rows[i].vehicleId].parts
    ensures forall k :: k in GroupRows(rows) ==> |GroupRows(rows)[k].parts| > 0
    decreases |rows|
  {
    var m := GroupRows(rows);
    forall i | 0 <= i < |rows| ensures rows[i].vehicleId in m {
      assert rows[i].vehicleId in Ids(rows);
    }
    forall i | 0 <= i < |rows| ensures rows[i].part in m[rows[i].vehicleId].parts {
      PartsOfMember(rows, i);
    }
    forall k | k in m ensures |m[k].parts| > 0 {
      var i :| 0 <= i < |rows| && rows[i].vehicleId == k;
      PartsOfMember(rows, i);
    }
  }

  lemma {:induction false} PartsOfMember(rows: seq<ScannedRow>, i: nat)
    requires i < |rows|
    ensures rows[i].part in PartsOf(rows, rows[i].vehicleId)
    decreases |rows|
  {
    var init := rows[..|rows| - 1];
    if i < |init| {
      assert init[i] == rows[i];
      PartsOfMember(init, i);
    }
  }

  /** Splitting off one identifier: its rows and the others account for all rows. */
  lemma {:induction false} SplitCount(rows: seq<ScannedRow>, k: string)
    ensures |rows| == |PartsOf(rows, k)| + |Without(rows, k)|
    ensures Ids(Without(rows, k)) == Ids(rows) - {k}
    ensures forall k' :: k' != k ==> PartsOf(Without(rows, k), k') == PartsOf(rows, k')
    decreases |rows|
  {
    if rows != [] {
      var init := rows[..|rows| - 1];
      var row := rows[|rows| - 1];
      SplitCount(init, k);
      var w := Without(rows, k);
      var w0 := Without(init, k);
      IdsLast(rows);
      if row.vehicleId != k {
        assert w == w0 + [row];
        assert w[..|w| - 1] == w0 && w[|w| - 1] == row;
        IdsAppend(w0, row);
      } else {
        assert w == w0;
      }
    }
  }

  lemma IdsLast(rows: seq<ScannedRow>)
    requires rows != []
    ensures Ids(rows) == Ids(rows[..|rows| - 1]) + {rows[|rows| - 1].vehicleId}
  {
    assert rows == rows[..|rows| - 1] + [rows[|rows| - 1]];
    IdsAppend(rows[..|rows| - 1], rows[|rows| - 1]);
  }

  lemma IdsAppend(rows: seq<ScannedRow>, row: ScannedRow)
    ensures Ids(rows + [row]) == Ids(rows) + {row.vehicleId}
  {
    var s := rows + [row];
    assert s[|rows|] == row;
    forall k | k in Ids(s) ensures k in Ids(rows) + {row.vehicleId} {
      var i :| 0 <= i < |s| && s[i].vehicleId == k;
      if i < |rows| { assert s[i] == rows[i]; }
    }
    forall k | k in Ids(rows) ensures k in Ids(s) {
      var i :| 0 <= i < |rows| && rows[i].vehicleId == k;
      assert s[i] == rows[i];
    }
  }

  lemma FirstId(rows: seq<ScannedRow>)
    ensures rows != [] ==> rows[0].vehicleId in Ids(rows)
  {
  }

  /** The number of parts of the identifiers in `order`, counted with the reference filter. */
  function CountParts(rows: seq<ScannedRow>, order: seq<string>): nat {
    if order == [] then 0 else |PartsOf(rows, order[0])| + CountParts(rows, order[1..])
  }

  predicate Distinct(order: seq<string>) {
    forall i, j :: 0 <= i < j < |order| ==> order[i] != order[j]
  }

  /** Counting the parts identifier by identifier over a list that names every identifier once
      counts every row once. */
  lemma {:induction false} CountAllParts(rows: seq<ScannedRow>, order: seq<string>)
    requires Distinct(order) && Ids(rows) <= set i | 0 <= i < |order| :: order[i]
    ensures CountParts(rows, order) == |rows|
    decreases |order|
  {
    FirstId(rows);
    if order != [] {
      var k := order[0];
      var rest := order[1..];
      var w := Without(rows, k);
      SplitCount(rows, k);
      assert Ids(w) <= set i | 0 <= i < |rest| :: rest[i] by {
        forall x | x in Ids(w) ensures x in set i | 0 <= i < |rest| :: rest[i] {
          var i :| 0 <= i < |order| && order[i] == x;
          assert i != 0;
          assert rest[i - 1] == order[i];
        }
      }
      assert Distinct(rest) by {
        forall i, j | 0 <= i < j < |rest| ensures rest[i] != rest[j] {
          assert rest[i] == order[i + 1] && rest[j] == order[j + 1];
        }
      }
      CountAllParts(w, rest);
      CountWithout(rows, k, rest);
    }
  }

  /** Removing the rows of an identifier the list does not name leaves the count unchanged. */
  lemma {:induction false} CountWithout(rows: seq<ScannedRow>, k: string, order: seq<string>)
    requires forall i :: 0 <= i < |order| ==> order[i] != k
    ensures CountParts(Without(rows, k), order) == CountParts(rows, order)
    decreases |order|
  {
    if order != [] {
      SplitCount(rows, k);
      CountWithout(rows, k, order[1..]);
    }
  }

  /** The map turned into a slice, in the iteration order `order`; Go's map iteration order is
      unspecified, so `order` is any list naming every key once. */
  function ToSlice(m: map<string, Vehicle>, order: seq<string>): (vs: seq<Vehicle>)
    requires forall i :: 0 <= i < |order| ==> order[i] in m
    ensures |vs| == |order|
    ensures forall i :: 0 <= i < |order| ==> vs[i] == m[order[i]]
  {
    seq(|order|, i requires 0 <= i < |order| => m[order[i]])
  }

  /** Whatever the iteration order, the vehicles returned hold all rows' parts, each once. */
  lemma GroupedPartsTotal(rows: seq<ScannedRow>, order: seq<string>)
    requires Distinct(order) && (set i | 0 <= i < |order| :: order[i]) == GroupRows(rows).Keys
    ensures forall i :: 0 <= i < |order| ==> order[i] in GroupRows(rows)
    ensures TotalParts(ToSlice(GroupRows(rows), order)) == |rows|
  {
    var m := GroupRows(rows);
    forall i | 0 <= i < |order| ensures order[i] in m {
      assert order[i] in set j | 0 <= j < |order| :: order[j];
    }
    CountAllParts(rows, order);
    SliceCount(rows, m, order);
  }

  lemma {:induction false} SliceCount(rows: seq<ScannedRow>, m: map<string, Vehicle>, order: seq<string>)
    requires forall k :: k in m ==> m[k].parts == PartsOf(rows, k)
    requires forall i :: 0 <= i < |order| ==> order[i] in m
    ensures TotalParts(ToSlice(m, order)) == CountParts(rows, order)
    decreases |order|
  {
    if order != [] {
      var rest := order[1..];
      SliceCount(rows, m, rest);
      TotalPartsCons(m[order[0]], ToSlice(m, rest));
      ToSliceCons(m, order);
    }
  }

  lemma ToSliceCons(m: map<string, Vehicle>, order: seq<string>)
    requires order != [] && forall i :: 0 <= i < |order| ==> order[i] in m
    ensures ToSlice(m, order) == [m[order[0]]] + ToSlice(m, order[1..])
  {
  }

  lemma {:induction false} TotalPartsCons(v: Vehicle, vs: seq<Vehicle>)
    ensures TotalParts([v] + vs) == |v.parts| + TotalParts(vs)
    decreases |vs|
  {
    if vs != [] {
      var init := vs[..|vs| - 1];
      assert ([v] + vs)[..|vs|] == [v] + init;
      TotalPartsCons(v, init);
    } else {
      assert [v] + vs == [v];
      assert [v][..0] == [];
    }
  }

  /** The rows as `Scan` reads them, or the position of the first row it cannot read. */
  function ScanRows(scans: seq<Option<ScannedRow>>): (r: Result<seq<ScannedRow>, nat>)
    ensures r.Success? ==> |r.value| == |scans| && forall i :: 0 <= i < |scans| ==> scans[i] == Some(r.value[i])
    ensures r.Failure? ==>
      r.error < |scans| && scans[r.error].None? && forall i :: 0 <= i < r.error ==> scans[i].Some?
  {
    if scans == [] then Success([])
    else if scans[0].None? then Failure(0)
    else
      match ScanRows(scans[1..])
      case Failure(k) => Failure(k + 1)
      case Success(rest) => Success([scans[0].value] + rest)
  }

  /** The grouping part of `GetPartsForModel`: a row that cannot be scanned makes the whole
      call fail; otherwise the groups of all rows. */
  function GetPartsForModel(scans: seq<Option<ScannedRow>>): (r: Result<map<string, Vehicle>, nat>)
    ensures r.Failure? <==> exists i :: 0 <= i < |scans| && scans[i].None?
    ensures r.Success? ==> r.value == GroupRows(seq(|scans|, i requires 0 <= i < |scans| => scans[i].value))
  {
    match ScanRows(scans)
    case Failure(k) => Failure(k)
    case Success(rows) =>
      assert rows == seq(|scans|, i requires 0 <= i < |scans| => scans[i].value);
      Success(GroupRows(rows))
  }
}
