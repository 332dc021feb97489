/** A JavaScript `Map.set` / object-property assignment loop, seen as a value:
    the dictionary obtained by writing a sequence of key/value pairs in order,
    a later write to a key replacing an earlier one. */
module Tables {
  import opened Wrappers

  /** `m` after the write `w`, when there is one. */
  function Put<K, V>(m: map<K, V>, w: Option<(K, V)>): map<K, V>
  {
    match w
    case None => m
    case Some(p) => m[p.0 := p.1]
  }

  /** The dictionary after writing `writes` in order. */
  function LastWins<K(==), V>(writes: seq<(K, V)>): map<K, V>
  {
    if writes == [] then map[]
    else LastWins(writes[..|writes| - 1])[writes[|writes| - 1].0 := writes[|writes| - 1].1]
  }

  /** Some write in `writes` is to key `k`. */
  predicate Written<K(==), V>(writes: seq<(K, V)>, k: K) {
    exists i :: 0 <= i < |writes| && writes[i].0 == k
  }

  /** `i` is the last write to its key. */
  predicate LastWriteAt<K(==), V>(writes: seq<(K, V)>, i: nat)
    requires i < |writes|
  {
    forall j :: i < j < |writes| ==> writes[j].0 != writes[i].0
  }

  /** A key is present exactly when some write is to that key. */
  lemma {:induction false} LastWinsKeys<K, V>(writes: seq<(K, V)>, k: K)
    ensures k in LastWins(writes) <==> Written(writes, k)
  {
    if writes != [] {
      var init := writes[..|writes| - 1];
      LastWinsKeys(init, k);
      if Written(init, k) {
        var i :| 0 <= i < |init| && init[i].0 == k;
        assert writes[i].0 == k;
      }
      if Written(writes, k) && writes[|writes| - 1].0 != k {
        var i :| 0 <= i < |writes| && writes[i].0 == k;
        assert init[i].0 == k;
      }
    }
  }

  /** Every entry of the dictionary was written by its key's last write. */
  lemma {:induction false} LastWinsSource<K, V>(writes: seq<(K, V)>, k: K)
    requires k in LastWins(writes)
    ensures exists i :: 0 <= i < |writes| && writes[i] == (k, LastWins(writes)[k]) && LastWriteAt(writes, i)
  {
    var n := |writes|;
    if writes[n - 1].0 == k {
      assert writes[n - 1] == (k, LastWins(writes)[k]);
      assert LastWriteAt(writes, n - 1);
    } else {
      var init := writes[..n - 1];
      LastWinsSource(init, k);
      var i :| 0 <= i < |init| && init[i] == (k, LastWins(init)[k]) && LastWriteAt(init, i);
      assert writes[i] == init[i];
      assert LastWriteAt(writes, i);
    }
  }

  /** The writes a loop makes when each item it visits writes at most one
      pair, in visiting order. */
  function Emitted<T, K(==), V>(items: seq<T>, write: T -> Option<(K, V)>): seq<(K, V)>
  {
    if items == [] then []
    else
      var init := Emitted(items[..|items| - 1], write);
      match write(items[|items| - 1])
      case None => init
      case Some(p) => init + [p]
  }

  /** One more item: the dictionary is unchanged or gets that item's write. */
  lemma EmittedStep<T, K, V>(items: seq<T>, write: T -> Option<(K, V)>)
    requires items != []
    ensures write(items[|items| - 1]).None? ==>
              LastWins(Emitted(items, write)) == LastWins(Emitted(items[..|items| - 1], write))
    ensures write(items[|items| - 1]).Some? ==>
              var p := write(items[|items| - 1]).value;
              LastWins(Emitted(items, write)) == LastWins(Emitted(items[..|items| - 1], write))[p.0 := p.1]
  {
    var init := Emitted(items[..|items| - 1], write);
    if write(items[|items| - 1]).Some? {
      var p := write(items[|items| - 1]).value;
      assert (init + [p])[..|init|] == init;
    }
  }

  /** Emitting from two batches of items is emitting from each in turn. */
  lemma {:induction false} EmittedAppend<T, K, V>(a: seq<T>, b: seq<T>, write: T -> Option<(K, V)>)
    ensures Emitted(a + b, write) == Emitted(a, write) + Emitted(b, write)
  {
    if b == [] {
      assert a + b == a;
    } else {
      assert (a + b)[..|a + b| - 1] == a + b[..|b| - 1];
      assert (a + b)[|a + b| - 1] == b[|b| - 1];
      EmittedAppend(a, b[..|b| - 1], write);
    }
  }

  /** Some item writes key `k`. */
  predicate WritesKey<T, K(==), V>(items: seq<T>, write: T -> Option<(K, V)>, k: K) {
    exists i :: 0 <= i < |items| && write(items[i]).Some? && write(items[i]).value.0 == k
  }

  /** A key is in the dictionary exactly when some item writes it. */
  lemma {:induction false} EmittedKeys<T, K, V>(items: seq<T>, write: T -> Option<(K, V)>, k: K)
    ensures k in LastWins(Emitted(items, write)) <==> WritesKey(items, write, k)
  {
    if items != [] {
      var init := items[..|items| - 1];
      EmittedStep(items, write);
      EmittedKeys(init, write, k);
      if WritesKey(init, write, k) {
        var i :| 0 <= i < |init| && write(init[i]).Some? && write(init[i]).value.0 == k;
        assert items[i] == init[i];
      }
      if WritesKey(items, write, k) {
        var i :| 0 <= i < |items| && write(items[i]).Some? && write(items[i]).value.0 == k;
        if i < |init| {
          assert init[i] == items[i];
        }
      }
    }
  }

  /** The value under a key is the one written by the last item writing it. */
  lemma {:induction false} EmittedLast<T, K, V>(items: seq<T>, write: T -> Option<(K, V)>, i: nat)
    requires i < |items| && write(items[i]).Some?
    requires forall j :: i < j < |items| && write(items[j]).Some? ==>
               write(items[j]).value.0 != write(items[i]).value.0
    ensures write(items[i]).value.0 in LastWins(Emitted(items, write))
    ensures LastWins(Emitted(items, write))[write(items[i]).value.0] == write(items[i]).value.1
  {
    var init := items[..|items| - 1];
    EmittedStep(items, write);
    if i < |items| - 1 {
      assert init[i] == items[i];
      forall j | i < j < |init| && write(init[j]).Some?
        ensures write(init[j]).value.0 != write(init[i]).value.0
      {
        assert init[j] == items[j];
      }
      EmittedLast(init, write, i);
    }
  }
}
