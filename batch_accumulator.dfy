/** The ingestion function of `modules/lambda1.py`: every queued notification
    carries the key of one uploaded frame; the key is appended to the single
    pending-batch record ("batch_id" = "current"), and when the list that comes
    back has exactly `BATCH_SIZE` entries it is sent to the batch runner and the
    record is reset to the empty list.

    The DynamoDB record is the field `images` (absent before the first write)
    and the asynchronous Lambda `invoke` calls are the log `invoked` of the
    payloads sent. Invocations are sequential here. */
module BatchAccumulator {
  import opened Common

  const BATCH_SIZE: nat := 4

  /** One queue record: `Some(key)` when its body parses as an S3 event and
      `Records[0].s3.object.key` is present, `None` when that lookup raises. */
  datatype Record = Record(key: Option<string>)

  /** The handler's event; `records` is `None` when the event has no "Records". */
  datatype Event = Event(records: Option<seq<Record>>)

  datatype HandlerError = MalformedRecord(index: nat)

  /** The outcome of one append: the pending list afterwards and the payload
      sent to the batch runner, if any. */
  datatype Step = Step(pending: seq<string>, flushed: Option<seq<string>>)

  /** One notification, as a pure step over the pending list. */
  function AppendKey(pending: seq<string>, key: string, size: nat): (r: Step)
    ensures r.flushed.Some? <==> |pending| + 1 == size
    ensures r.flushed.Some? ==> r.flushed.value == pending + [key] && r.pending == []
    ensures r.flushed.None? ==> r.pending == pending + [key]
    ensures |pending| < size ==> |r.pending| < size
  {
    var images := pending + [key];
    if |images| == size then Step([], Some(images)) else Step(images, None)
  }

  datatype Run = Run(pending: seq<string>, payloads: seq<seq<string>>)

  /** `keys` appended one after another, in order, starting from `pending`. */
  function AppendAll(pending: seq<string>, keys: seq<string>, size: nat): Run
  {
    if keys == [] then Run(pending, [])
    else
      var before := AppendAll(pending, keys[..|keys| - 1], size);
      var step := AppendKey(before.pending, keys[|keys| - 1], size);
      Run(step.pending, before.payloads + (if step.flushed.Some? then [step.flushed.value] else []))
  }

  function Flatten(xss: seq<seq<string>>): seq<string> {
    if xss == [] then [] else Flatten(xss[..|xss| - 1]) + xss[|xss| - 1]
  }

  lemma FlattenAppend(xss: seq<seq<string>>, ys: seq<seq<string>>)
    ensures Flatten(xss + ys) == Flatten(xss) + Flatten(ys)
    decreases |ys|
  {
    if ys == [] {
      assert xss + ys == xss;
    } else {
      assert (xss + ys)[..|xss + ys| - 1] == xss + ys[..|ys| - 1];
      assert (xss + ys)[|xss + ys| - 1] == ys[|ys| - 1];
      FlattenAppend(xss, ys[..|ys| - 1]);
    }
  }

  /** Nothing is lost or reordered: the payloads sent, in order, followed by
      what is still pending, are the starting list followed by every key. */
  lemma {:induction false} AppendAllPartition(pending: seq<string>, keys: seq<string>, size: nat)
    ensures Flatten(AppendAll(pending, keys, size).payloads) + AppendAll(pending, keys, size).pending
            == pending + keys
  {
    if keys != [] {
      var init := keys[..|keys| - 1];
      AppendAllPartition(pending, init, size);
      var before := AppendAll(pending, init, size);
      var step := AppendKey(before.pending, keys[|keys| - 1], size);
      var run := AppendAll(pending, keys, size);
      assert keys == init + [keys[|keys| - 1]];
      if step.flushed.Some? {
        FlattenAppend(before.payloads, [step.flushed.value]);
        assert Flatten([step.flushed.value]) == step.flushed.value by {
          assert [step.flushed.value][..0] == [];
        }
        assert run.payloads == before.payloads + [step.flushed.value];
        assert run.pending == [];
        assert Flatten(run.payloads) == Flatten(before.payloads) + before.pending + [keys[|keys| - 1]];
      } else {
        assert run.payloads == before.payloads;
        assert run.pending == before.pending + [keys[|keys| - 1]];
        calc {
          Flatten(run.payloads) + run.pending;
          Flatten(before.payloads) + (before.pending + [keys[|keys| - 1]]);
          (Flatten(before.payloads) + before.pending) + [keys[|keys| - 1]];
        }
      }
    }
  }

  /** From an empty record, every `size` keys produce one payload and
      fewer than `size` keys stay pending. */
  lemma {:induction false} AppendAllCounts(keys: seq<string>, size: nat)
    requires size > 0
    ensures |AppendAll([], keys, size).payloads| * size + |AppendAll([], keys, size).pending| == |keys|
    ensures |AppendAll([], keys, size).pending| < size
  {
    if keys != [] {
      var init := keys[..|keys| - 1];
      AppendAllCounts(init, size);
      var before := AppendAll([], init, size);
      var step := AppendKey(before.pending, keys[|keys| - 1], size);
      if step.flushed.Some? {
        assert (|before.payloads| + 1) * size == |before.payloads| * size + size;
      }
    }
  }

  /** With the deployed `BATCH_SIZE`, `n` keys from an empty record give
      `n / BATCH_SIZE` invocations and leave the last `n % BATCH_SIZE` keys. */
  lemma BatchCounts(keys: seq<string>)
    ensures |AppendAll([], keys, BATCH_SIZE).payloads| == |keys| / BATCH_SIZE
    ensures AppendAll([], keys, BATCH_SIZE).pending == keys[|keys| - |keys| % BATCH_SIZE..]
  {
    var run := AppendAll([], keys, BATCH_SIZE);
    AppendAllCounts(keys, BATCH_SIZE);
    AppendAllPartition([], keys, BATCH_SIZE);
    assert Flatten(run.payloads) + run.pending == keys;
  }

  /** Every payload sent from an initially short record has exactly `size` keys. */
  lemma {:induction false} PayloadsAreFull(pending: seq<string>, keys: seq<string>, size: nat)
    requires |pending| < size
    ensures |AppendAll(pending, keys, size).pending| < size
    ensures forall p :: p in AppendAll(pending, keys, size).payloads ==> |p| == size
  {
    if keys != [] {
      PayloadsAreFull(pending, keys[..|keys| - 1], size);
    }
  }

  /** A record already longer than `size` can never flush again: it only grows. */
  lemma {:induction false} OverfullNeverFlushes(pending: seq<string>, keys: seq<string>, size: nat)
    requires |pending| > size
    ensures AppendAll(pending, keys, size).payloads == []
    ensures AppendAll(pending, keys, size).pending == pending + keys
  {
    if keys != [] {
      OverfullNeverFlushes(pending, keys[..|keys| - 1], size);
      assert keys == keys[..|keys| - 1] + [keys[|keys| - 1]];
    }
  }

  datatype Handled = Handled(run: Run, outcome: Result<nat, HandlerError>)

  /** The handler's loop over the records from index `i` on, in event order:
      it stops with an error at the first record whose key cannot be read,
      keeping what the earlier records did. */
  function HandleFrom(records: seq<Record>, i: nat, pending: seq<string>, size: nat): (h: Handled)
    requires i <= |records|
    ensures h.outcome.Ok? <==> forall j :: i <= j < |records| ==> records[j].key.Some?
    ensures h.outcome.Ok? ==> h.outcome.value == 200
    ensures h.outcome.Err? ==>
              exists k :: i <= k < |records| && records[k].key.None? && h.outcome.error == MalformedRecord(k)
                          && forall j :: i <= j < k ==> records[j].key.Some?
    decreases |records| - i
  {
    if i == |records| then Handled(Run(pending, []), Ok(200))
    else match records[i].key
      case None => Handled(Run(pending, []), Err(MalformedRecord(i)))
      case Some(k) =>
        var step := AppendKey(pending, k, size);
        var rest := HandleFrom(records, i + 1, step.pending, size);
        var sent := if step.flushed.Some? then [step.flushed.value] else [];
        Handled(Run(rest.run.pending, sent + rest.run.payloads), rest.outcome)
  }

  function KeysOf(records: seq<Record>): seq<string>
    requires forall j :: 0 <= j < |records| ==> records[j].key.Some?
  {
    if records == [] then []
    else KeysOf(records[..|records| - 1]) + [records[|records| - 1].key.value]
  }

  /** A run that ends after some keys, followed by more keys, is one run. */
  lemma {:induction false} AppendAllSplit(pending: seq<string>, xs: seq<string>, ys: seq<string>, size: nat)
    ensures AppendAll(pending, xs + ys, size)
            == Run(AppendAll(AppendAll(pending, xs, size).pending, ys, size).pending,
                   AppendAll(pending, xs, size).payloads + AppendAll(AppendAll(pending, xs, size).pending, ys, size).payloads)
    decreases |ys|
  {
    if ys == [] {
      assert xs + ys == xs;
    } else {
      assert (xs + ys)[..|xs + ys| - 1] == xs + ys[..|ys| - 1];
      AppendAllSplit(pending, xs, ys[..|ys| - 1], size);
    }
  }

  /** When every record parses, the handler is `AppendAll` over the keys in event order. */
  lemma {:induction false} HandleFromIsAppendAll(records: seq<Record>, i: nat, pending: seq<string>, size: nat)
    requires i <= |records|
    requires forall j :: 0 <= j < |records| ==> records[j].key.Some?
    ensures HandleFrom(records, i, pending, size).run == AppendAll(pending, KeysOf(records[i..]), size)
    decreases |records| - i
  {
    if i < |records| {
      var k := records[i].key.value;
      var step := AppendKey(pending, k, size);
      HandleFromIsAppendAll(records, i + 1, step.pending, size);
      var tail := KeysOf(records[i + 1..]);
      assert KeysOf(records[i..]) == [k] + tail by { KeysOfCons(records[i..]); assert records[i..][1..] == records[i + 1..]; }
      AppendAllSplit(pending, [k], tail, size);
      assert AppendAll(pending, [k], size) == Run(step.pending, if step.flushed.Some? then [step.flushed.value] else []) by {
        assert [k][..0] == [];
      }
    } else {
      assert records[i..] == [];
    }
  }

  /** When record `k` is the first whose key cannot be read, the handler fails
      naming `k`, after the keys before it have been appended in order: their
      payloads were sent and the rest stays pending. */
  lemma {:induction false} HandleFromStopsAt(records: seq<Record>, i: nat, pending: seq<string>, size: nat, k: nat)
    requires i <= k < |records|
    requires records[k].key.None?
    requires forall j :: i <= j < k ==> records[j].key.Some?
    ensures HandleFrom(records, i, pending, size).outcome == Err(MalformedRecord(k))
    ensures HandleFrom(records, i, pending, size).run == AppendAll(pending, KeysOf(records[i..k]), size)
    decreases k - i
  {
    if i == k {
      assert records[i..k] == [];
    } else {
      var key := records[i].key.value;
      var step := AppendKey(pending, key, size);
      HandleFromStopsAt(records, i + 1, step.pending, size, k);
      var tail := KeysOf(records[i + 1..k]);
      assert KeysOf(records[i..k]) == [key] + tail by {
        KeysOfCons(records[i..k]);
        assert records[i..k][1..] == records[i + 1..k];
      }
      AppendAllSplit(pending, [key], tail, size);
      assert AppendAll(pending, [key], size) == Run(step.pending, if step.flushed.Some? then [step.flushed.value] else []) by {
        assert [key][..0] == [];
      }
    }
  }

  lemma {:induction false} KeysOfCons(records: seq<Record>)
    requires records != []
    requires forall j :: 0 <= j < |records| ==> records[j].key.Some?
    ensures KeysOf(records) == [records[0].key.value] + KeysOf(records[1..])
    decreases |records|
  {
    if |records| > 1 {
      var init := records[..|records| - 1];
      KeysOfCons(init);
      assert init[1..] == records[1..][..|records[1..]| - 1];
    } else {
      assert records[1..] == [];
      assert records[..0] == [];
    }
  }

  class Accumulator {
    /** The `images` attribute of the "current" record; `None` before it exists. */
    var images: Option<seq<string>>
    /** Payloads of the asynchronous invocations of the batch runner, in order. */
    var invoked: seq<seq<string>>

    /** The stored list, with a missing attribute read as `[]` (`if_not_exists`). */
    function Pending(): seq<string>
      reads this
    {
      if images.Some? then images.value else []
    }

    constructor ()
      ensures images == None && invoked == []
    {
      images := None;
      invoked := [];
    }

    /** One record: append the key, check the post-append list, flush and reset. */
    method AppendAndMaybeFlush(key: string)
      modifies this
      ensures AppendKey(old(Pending()), key, BATCH_SIZE).flushed.Some? ==>
                invoked == old(invoked) + [old(Pending()) + [key]] && images == Some([])
      ensures AppendKey(old(Pending()), key, BATCH_SIZE).flushed.None? ==>
                invoked == old(invoked) && images == Some(old(Pending()) + [key])
      ensures Pending() == AppendKey(old(Pending()), key, BATCH_SIZE).pending
    {
      var current := Pending() + [key];
      images := Some(current);
      if |current| == BATCH_SIZE {
        invoked := invoked + [current];
        images := Some([]);
      }
    }

    /** `lambda_handler`: the records in event order; a record whose key cannot
        be read ends the invocation with an error, after the earlier records
        have taken effect; otherwise the status code is 200. */
    method LambdaHandler(event: Event) returns (r: Result<nat, HandlerError>)
      modifies this
      ensures var records := if event.records.Some? then event.records.value else [];
              var h := HandleFrom(records, 0, old(Pending()), BATCH_SIZE);
              && r == h.outcome
              && Pending() == h.run.pending
              && invoked == old(invoked) + h.run.payloads
    {
      var records := if event.records.Some? then event.records.value else [];
      var i := 0;
      while i < |records|
        invariant 0 <= i <= |records|
        invariant forall j :: 0 <= j < i ==> records[j].key.Some?
        invariant var h := HandleFrom(records, i, Pending(), BATCH_SIZE);
                  var h0 := HandleFrom(records, 0, old(Pending()), BATCH_SIZE);
                  && h0.outcome == h.outcome
                  && h0.run.pending == h.run.pending
                  && old(invoked) + h0.run.payloads == invoked + h.run.payloads
      {
        match records[i].key {
          case None =>
            return Err(MalformedRecord(i));
          case Some(k) =>
            AppendAndMaybeFlush(k);
        }
        i := i + 1;
      }
      return Ok(200);
    }
  }
}
