/** A relation with one unique key, as the inserts see it: a map from key to row, and an
    `INSERT ... ON CONFLICT DO NOTHING` statement that adds a row only when its key is new. */
module Table {
  import opened Results

  /** One prepared-statement execution: the key of the row and the row itself. */
  type Entry<R> = (string, R)

  function Keys<R>(es: seq<Entry<R>>): set<string> {
    set i | 0 <= i < |es| :: es[i].0
  }

  /** `es[i]` is the first entry of `es` with its key. */
  predicate FirstWithKey<R>(es: seq<Entry<R>>, i: nat)
    requires i < |es|
  {
    forall j :: 0 <= j < i ==> es[j].0 != es[i].0
  }

  /** One `INSERT ... ON CONFLICT DO NOTHING`: a row whose key is taken changes nothing, a row
      with a new key is added, and no other row is touched. */
  function InsertIgnore<R>(t: map<string, R>, key: string, row: R): (r: map<string, R>)
    ensures r.Keys == t.Keys + {key}
    ensures key in t ==> r == t
    ensures key !in t ==> r[key] == row
    ensures forall k :: k in t ==> r[k] == t[k]
  {
    if key in t then t else t[key := row]
  }

  /** The entries inserted one after another. The keys become those of the table and of the
      entries; rows already present are kept; a new key gets the row of its first entry. */
  function InsertAll<R>(t: map<string, R>, es: seq<Entry<R>>): (r: map<string, R>)
    ensures r.Keys == t.Keys + Keys(es)
    ensures forall k :: k in t ==> r[k] == t[k]
    ensures forall i :: 0 <= i < |es| && es[i].0 !in t && FirstWithKey(es, i) ==> r[es[i].0] == es[i].1
    decreases |es|
  {
    if es == [] then t
    else
      var t' := InsertIgnore(t, es[0].0, es[0].1);
      var r := InsertAll(t', es[1..]);
      assert Keys(es) == {es[0].0} + Keys(es[1..]) by {
        forall k | k in Keys(es) ensures k in {es[0].0} + Keys(es[1..]) {
          var i :| 0 <= i < |es| && es[i].0 == k;
          if i > 0 { assert es[1..][i - 1] == es[i]; }
        }
      }
      forall i | 0 <= i < |es| && es[i].0 !in t && FirstWithKey(es, i)
        ensures r[es[i].0] == es[i].1
      {
        if i > 0 {
          assert es[1..][i - 1] == es[i];
          assert FirstWithKey(es[1..], i - 1) by {
            forall j | 0 <= j < i - 1 ensures es[1..][j].0 != es[i].0 {
              assert es[1..][j] == es[j + 1];
            }
          }
        }
      }
      r
  }

  /** Entries whose keys are all taken change nothing. */
  lemma {:induction false} InsertAllPresent<R>(t: map<string, R>, es: seq<Entry<R>>)
    requires Keys(es) <= t.Keys
    ensures InsertAll(t, es) == t
    decreases |es|
  {
    if es != [] {
      assert es[0].0 in Keys(es);
      assert Keys(es[1..]) <= Keys(es) by {
        forall k | k in Keys(es[1..]) ensures k in Keys(es) {
          var i :| 0 <= i < |es[1..]| && es[1..][i].0 == k;
          assert es[i + 1] == es[1..][i];
        }
      }
      InsertAllPresent(t, es[1..]);
    }
  }

  /** Every row the inserts add is the row of one of the entries, under that entry's key. */
  lemma {:induction false} InsertAllNewRows<R>(t: map<string, R>, es: seq<Entry<R>>)
    ensures forall k :: k in InsertAll(t, es) && k !in t ==>
      exists i :: 0 <= i < |es| && es[i] == (k, InsertAll(t, es)[k])
    decreases |es|
  {
    if es != [] {
      var t' := InsertIgnore(t, es[0].0, es[0].1);
      InsertAllNewRows(t', es[1..]);
      var r := InsertAll(t, es);
      forall k | k in r && k !in t
        ensures exists i :: 0 <= i < |es| && es[i] == (k, r[k])
      {
        if k in t' {
          assert k == es[0].0 && r[k] == es[0].1;
          assert es[0] == (k, r[k]);
        } else {
          var i :| 0 <= i < |es[1..]| && es[1..][i] == (k, r[k]);
          assert es[i + 1] == (k, r[k]);
        }
      }
    }
  }

  /** A prefix of a batch whose keys are all taken changes nothing either. */
  lemma InsertAllPresentPrefix<R>(t: map<string, R>, es: seq<Entry<R>>, n: nat)
    requires Keys(es) <= t.Keys && n <= |es|
    ensures InsertAll(t, es[..n]) == t
  {
    assert Keys(es[..n]) <= Keys(es) by {
      forall k | k in Keys(es[..n]) ensures k in Keys(es) {
        var i :| 0 <= i < n && es[..n][i].0 == k;
        assert es[i] == es[..n][i];
      }
    }
    InsertAllPresent(t, es[..n]);
  }

  /** Inserting the same entries a second time changes nothing. */
  lemma InsertAllIdempotent<R>(t: map<string, R>, es: seq<Entry<R>>)
    ensures InsertAll(InsertAll(t, es), es) == InsertAll(t, es)
  {
    InsertAllPresent(InsertAll(t, es), es);
  }

  /** Inserting two batches one after the other is inserting their concatenation. */
  lemma {:induction false} InsertAllAppend<R>(t: map<string, R>, a: seq<Entry<R>>, b: seq<Entry<R>>)
    ensures InsertAll(t, a + b) == InsertAll(InsertAll(t, a), b)
    decreases |a|
  {
    if a == [] {
      assert a + b == b;
    } else {
      assert (a + b)[0] == a[0];
      assert (a + b)[1..] == a[1..] + b;
      InsertAllAppend(InsertIgnore(t, a[0].0, a[0].1), a[1..], b);
    }
  }

  /** The outcome of executing a batch of statements: the table inside the transaction and
      the position of the statement that failed, if one did. */
  datatype Execution<R> = Execution(table: map<string, R>, failedAt: Option<nat>)

  /** `k` is the first position of `[pos, pos + n)` in `failing`, or none when there is none. */
  predicate FirstFailure(failing: set<nat>, pos: nat, n: nat, k: Option<nat>) {
    match k
    case None => forall i :: pos <= i < pos + n ==> i !in failing
    case Some(f) => pos <= f < pos + n && f in failing && forall i :: pos <= i < f ==> i !in failing
  }

  lemma FirstFailureStep(failing: set<nat>, pos: nat, n: nat, k: Option<nat>)
    requires pos !in failing && n > 0 && FirstFailure(failing, pos + 1, n - 1, k)
    ensures FirstFailure(failing, pos, n, k)
  {
  }

  /** The statement loop: the entries are executed in order, the statement at position `pos`
      failing exactly when `pos` is in `failing`, and the first failure ends the loop.
      ExecuteTable adds that the table then holds exactly the entries before it. */
  function Execute<R>(t: map<string, R>, es: seq<Entry<R>>, failing: set<nat>, pos: nat): (r: Execution<R>)
    ensures FirstFailure(failing, pos, |es|, r.failedAt)
    decreases |es|
  {
    if es == [] then Execution(t, None)
    else if pos in failing then Execution(t, Some(pos))
    else
      var r := Execute(InsertIgnore(t, es[0].0, es[0].1), es[1..], failing, pos + 1);
      FirstFailureStep(failing, pos, |es|, r.failedAt);
      r
  }

  /** What the loop leaves in the table: every entry when none fails, otherwise exactly the
      entries before the failing one. */
  ghost predicate HoldsPrefix<R>(t: map<string, R>, es: seq<Entry<R>>, pos: nat, r: Execution<R>) {
    if r.failedAt.None? then r.table == InsertAll(t, es)
    else pos <= r.failedAt.value <= pos + |es| && r.table == InsertAll(t, es[..r.failedAt.value - pos])
  }

  /** The table the statement loop leaves behind. */
  lemma {:induction false} ExecuteTable<R>(t: map<string, R>, es: seq<Entry<R>>, failing: set<nat>, pos: nat)
    ensures HoldsPrefix(t, es, pos, Execute(t, es, failing, pos))
    decreases |es|
  {
    if es == [] || pos in failing {
      ExecuteStops(t, es, failing, pos);
    } else {
      var t' := InsertIgnore(t, es[0].0, es[0].1);
      var rest := es[1..];
      var r := Execute(t', rest, failing, pos + 1);
      ExecuteUnfold(t, es, failing, pos);
      ExecuteTable(t', rest, failing, pos + 1);
      HoldsStep(t, es, t', rest, pos, r);
    }
  }

  /** An empty batch, or a failing first statement, leaves the table as it was. */
  lemma ExecuteStops<R>(t: map<string, R>, es: seq<Entry<R>>, failing: set<nat>, pos: nat)
    requires es == [] || pos in failing
    ensures HoldsPrefix(t, es, pos, Execute(t, es, failing, pos))
  {
    if es == [] {
      assert Execute(t, es, failing, pos) == Execution(t, None);
    } else {
      assert Execute(t, es, failing, pos) == Execution(t, Some(pos));
      assert es[..0] == [];
    }
  }

  lemma ExecuteUnfold<R>(t: map<string, R>, es: seq<Entry<R>>, failing: set<nat>, pos: nat)
    requires es != [] && pos !in failing
    ensures Execute(t, es, failing, pos) == Execute(InsertIgnore(t, es[0].0, es[0].1), es[1..], failing, pos + 1)
  {
  }

  /** A successful first statement: the table after the rest is the table after the batch. */
  lemma HoldsStep<R>(t: map<string, R>, es: seq<Entry<R>>, t': map<string, R>, rest: seq<Entry<R>>,
                     pos: nat, r: Execution<R>)
    requires es != [] && t' == InsertIgnore(t, es[0].0, es[0].1) && rest == es[1..]
    requires HoldsPrefix(t', rest, pos + 1, r)
    ensures HoldsPrefix(t, es, pos, r)
  {
    if r.failedAt.None? {
      StepAll(t, es, t', rest);
    } else {
      StepPrefix(t, es, t', rest, pos, r.failedAt.value, r.table);
    }
  }

  lemma StepAll<R>(t: map<string, R>, es: seq<Entry<R>>, t': map<string, R>, rest: seq<Entry<R>>)
    requires es != [] && t' == InsertIgnore(t, es[0].0, es[0].1) && rest == es[1..]
    ensures InsertAll(t, es) == InsertAll(t', rest)
  {
  }

  lemma StepPrefix<R>(t: map<string, R>, es: seq<Entry<R>>, t': map<string, R>, rest: seq<Entry<R>>,
                      pos: nat, f: nat, table: map<string, R>)
    requires es != [] && t' == InsertIgnore(t, es[0].0, es[0].1) && rest == es[1..]
    requires pos + 1 <= f <= pos + 1 + |rest| && table == InsertAll(t', rest[..f - (pos + 1)])
    ensures pos <= f <= pos + |es| && table == InsertAll(t, es[..f - pos])
  {
    InsertAllPrefix(t, es, f - pos);
  }

  lemma InsertAllPrefix<R>(t: map<string, R>, es: seq<Entry<R>>, j: nat)
    requires 0 < j <= |es|
    ensures InsertAll(t, es[..j]) == InsertAll(InsertIgnore(t, es[0].0, es[0].1), es[1..][..j - 1])
  {
    var pre := es[1..][..j - 1];
    assert es[..j] == [es[0]] + pre;
    InsertAllCons(t, es[0], pre);
  }

  lemma InsertAllCons<R>(t: map<string, R>, e: Entry<R>, rest: seq<Entry<R>>)
    ensures InsertAll(t, [e] + rest) == InsertAll(InsertIgnore(t, e.0, e.1), rest)
  {
    assert ([e] + rest)[1..] == rest;
  }

  /** With no failing statement the loop inserts every entry. */
  lemma ExecuteFaultFree<R>(t: map<string, R>, es: seq<Entry<R>>, failing: set<nat>, pos: nat)
    requires forall i :: pos <= i < pos + |es| ==> i !in failing
    ensures Execute(t, es, failing, pos) == Execution(InsertAll(t, es), None)
  {
    ExecuteTable(t, es, failing, pos);
  }

  /** The statements after the failing one are never attempted: entries past it do not matter. */
  lemma {:induction false} ExecuteStopsAtFailure<R>(t: map<string, R>, es: seq<Entry<R>>, more: seq<Entry<R>>, failing: set<nat>, pos: nat)
    requires Execute(t, es, failing, pos).failedAt.Some?
    ensures Execute(t, es + more, failing, pos) == Execute(t, es, failing, pos)
    decreases |es|
  {
    assert es != [];
    assert (es + more)[0] == es[0] && (es + more)[1..] == es[1..] + more;
    if pos !in failing {
      ExecuteStopsAtFailure(InsertIgnore(t, es[0].0, es[0].1), es[1..], more, failing, pos + 1);
    }
  }
}
