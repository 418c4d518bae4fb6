/**
 The thread that writes terminal input to the guest. It coalesces queued input for one shell into a frame; the
 message that ends a batch because it is for another shell has been taken off the channel and is gone.
 */
module InputBatch {
  import opened Basics

  const MAX_BATCH_SIZE: nat := 64 * 1024

  /** A message with its descriptor and session; `ready` is whether it is queued by the time the thread is free. */
  datatype Input = Input(target: nat, data: seq<byte>, ready: bool)

  datatype Frame = Frame(target: nat, data: seq<byte>)

  /** `used` messages were taken after the first; if one was lost it is the last of them. */
  datatype Batch = Batch(data: seq<byte>, used: nat, lost: bool)

  function TakeBatch(target: nat, data: seq<byte>, rest: seq<Input>): (b: Batch)
    ensures b.used <= |rest| && (b.lost ==> b.used > 0)
    decreases |rest|
  {
    if |data| >= MAX_BATCH_SIZE || rest == [] || !rest[0].ready then Batch(data, 0, false)
    else if rest[0].target == target then
      var b := TakeBatch(target, data + rest[0].data, rest[1..]);
      b.(used := b.used + 1)
    else Batch(data, 1, true)
  }

  function First(inputs: seq<Input>): Batch
    requires inputs != []
  {
    TakeBatch(inputs[0].target, inputs[0].data, inputs[1..])
  }

  function After(inputs: seq<Input>): (rest: seq<Input>)
    requires inputs != []
    ensures |rest| < |inputs|
  {
    inputs[1 + First(inputs).used..]
  }

  /** Everything the thread writes for a stream of input. */
  function Frames(inputs: seq<Input>): seq<Frame>
    decreases |inputs|
  {
    if inputs == [] then [] else [Frame(inputs[0].target, First(inputs).data)] + Frames(After(inputs))
  }

  /** The messages that it takes and does not write. */
  function Lost(inputs: seq<Input>): seq<Input>
    decreases |inputs|
  {
    if inputs == [] then []
    else (if First(inputs).lost then [inputs[First(inputs).used]] else []) + Lost(After(inputs))
  }

  lemma {:induction false} TakeBatchSteps(target: nat, data: seq<byte>, rest: seq<Input>, i: nat, buf: seq<byte>)
    requires i <= |rest| && forall k | 0 <= k < i :: rest[k].ready && rest[k].target == target
    requires TakeBatch(target, data, rest) == TakeBatch(target, buf, rest[i..]).(used := TakeBatch(target, buf, rest[i..]).used + i)
    requires i < |rest| && |buf| < MAX_BATCH_SIZE && rest[i].ready && rest[i].target == target
    ensures TakeBatch(target, data, rest) ==
            TakeBatch(target, buf + rest[i].data, rest[i + 1..]).(used := TakeBatch(target, buf + rest[i].data, rest[i + 1..]).used + i + 1)
  {
    assert rest[i..][1..] == rest[i + 1..];
  }

  /** The inner loop. */
  method Coalesce(target: nat, data: seq<byte>, rest: seq<Input>) returns (b: Batch)
    ensures b == TakeBatch(target, data, rest)
  {
    var buf, i := data, 0;
    assert rest[0..] == rest;
    while |buf| < MAX_BATCH_SIZE
      invariant 0 <= i <= |rest| && forall k | 0 <= k < i :: rest[k].ready && rest[k].target == target
      invariant var tail := TakeBatch(target, buf, rest[i..]); TakeBatch(target, data, rest) == tail.(used := tail.used + i)
      decreases |rest| - i
    {
      if i == |rest| || !rest[i].ready {
        return Batch(buf, i, false);
      }
      if rest[i].target != target {
        return Batch(buf, i + 1, true);
      }
      TakeBatchSteps(target, data, rest, i, buf);
      buf := buf + rest[i].data;
      i := i + 1;
    }
    b := Batch(buf, i, false);
  }

  /** The thread's loop. */
  method WriteInput(inputs: seq<Input>) returns (frames: seq<Frame>)
    ensures frames == Frames(inputs)
  {
    frames := [];
    var rest := inputs;
    while rest != []
      invariant frames + Frames(rest) == Frames(inputs)
      decreases |rest|
    {
      var b := Coalesce(rest[0].target, rest[0].data, rest[1..]);
      AppendAssoc(frames, [Frame(rest[0].target, b.data)], Frames(After(rest)));
      frames := frames + [Frame(rest[0].target, b.data)];
      rest := rest[1 + b.used..];
    }
  }

  // ---------------------------------------------------------------------------
  // What arrives
  // ---------------------------------------------------------------------------

  function For(input: Input, t: nat): seq<byte> {
    if input.target == t then input.data else []
  }

  /** The bytes meant for one target, in order. */
  function InputFor(inputs: seq<Input>, t: nat): seq<byte> {
    if inputs == [] then [] else For(inputs[0], t) + InputFor(inputs[1..], t)
  }

  function WrittenFor(frames: seq<Frame>, t: nat): seq<byte> {
    if frames == [] then [] else (if frames[0].target == t then frames[0].data else []) + WrittenFor(frames[1..], t)
  }

  lemma {:induction false} InputForAppend(a: seq<Input>, b: seq<Input>, t: nat)
    ensures InputFor(a + b, t) == InputFor(a, t) + InputFor(b, t)
    decreases |a|
  {
    if a == [] {
      assert a + b == b;
    } else {
      var rest := a[1..];
      InputForAppend(rest, b, t);
      assert a + b == [a[0]] + (rest + b);
      OneMoreInput(a[0], rest + b, t);
      assert a == [a[0]] + rest;
      OneMoreInput(a[0], rest, t);
      AppendAssoc(For(a[0], t), InputFor(rest, t), InputFor(b, t));
    }
  }

  lemma OneMoreInput(first: Input, rest: seq<Input>, t: nat)
    ensures InputFor([first] + rest, t) == For(first, t) + InputFor(rest, t)
  {
    assert ([first] + rest)[1..] == rest;
  }

  /** The messages of a batch are all for its target, and their bytes are its data; a lost one is for another. */
  lemma {:induction false} BatchIsConcatenation(target: nat, data: seq<byte>, rest: seq<Input>, t: nat)
    ensures var b := TakeBatch(target, data, rest);
            var n := if b.lost then b.used - 1 else b.used;
            && b.data == data + InputFor(rest[..n], target)
            && (t != target ==> InputFor(rest[..n], t) == [])
            && (b.lost ==> rest[n].target != target)
    decreases |rest|
  {
    var b := TakeBatch(target, data, rest);
    var n := if b.lost then b.used - 1 else b.used;
    if !(|data| >= MAX_BATCH_SIZE || rest == [] || !rest[0].ready) && rest[0].target == target {
      BatchIsConcatenation(target, data + rest[0].data, rest[1..], t);
      assert rest[..n][1..] == rest[1..][..n - 1];
      AppendAssoc(data, rest[0].data, InputFor(rest[..n][1..], target));
    } else {
      assert rest[..n] == [];
      assert data + [] == data;
    }
  }

  /** The first batch accounts for the messages that it uses. */
  lemma FirstBatch(inputs: seq<Input>, t: nat)
    requires inputs != []
    ensures var b := First(inputs);
            InputFor(inputs, t) ==
            (if inputs[0].target == t then b.data else [])
            + ((if b.lost && inputs[b.used].target == t then inputs[b.used].data else []) + InputFor(After(inputs), t))
  {
    var b, rest := First(inputs), inputs[1..];
    var n := if b.lost then b.used - 1 else b.used;
    BatchIsConcatenation(inputs[0].target, inputs[0].data, rest, t);
    var own, tail := InputFor(rest[..n], t), InputFor(rest[n..], t);
    assert rest == rest[..n] + rest[n..];
    InputForAppend(rest[..n], rest[n..], t);
    var head := if inputs[0].target == t then inputs[0].data else [];
    AppendAssoc(head, own, tail);
    assert head + own == if inputs[0].target == t then b.data else [];
    if b.lost {
      assert rest[n..][1..] == After(inputs) && rest[n..][0] == inputs[b.used];
    } else {
      assert rest[n..] == After(inputs);
      assert [] + InputFor(After(inputs), t) == InputFor(After(inputs), t);
    }
  }

  /** What is written for a target and what is lost of it add up to its input. */
  lemma {:induction false} NothingDuplicated(inputs: seq<Input>, t: nat)
    ensures |WrittenFor(Frames(inputs), t)| + |InputFor(Lost(inputs), t)| == |InputFor(inputs, t)|
    decreases |inputs|
  {
    if inputs != [] {
      FirstBatch(inputs, t);
      NothingDuplicated(After(inputs), t);
      LostStep(inputs, t);
    }
  }

  lemma LostStep(inputs: seq<Input>, t: nat)
    requires inputs != []
    ensures var b := First(inputs);
            InputFor(Lost(inputs), t) ==
            (if b.lost && inputs[b.used].target == t then inputs[b.used].data else []) + InputFor(Lost(After(inputs)), t)
    ensures WrittenFor(Frames(inputs), t) ==
            (if inputs[0].target == t then First(inputs).data else []) + WrittenFor(Frames(After(inputs)), t)
  {
    var frames := Frames(inputs);
    assert frames[1..] == Frames(After(inputs));
    if First(inputs).lost {
      assert Lost(inputs)[1..] == Lost(After(inputs));
    } else {
      assert Lost(inputs) == Lost(After(inputs));
    }
  }

  lemma {:induction false} WholeIfNothingLost(inputs: seq<Input>, t: nat)
    requires InputFor(Lost(inputs), t) == []
    ensures WrittenFor(Frames(inputs), t) == InputFor(inputs, t)
    decreases |inputs|
  {
    if inputs != [] {
      FirstBatch(inputs, t);
      LostStep(inputs, t);
      WholeIfNothingLost(After(inputs), t);
      assert [] + InputFor(After(inputs), t) == InputFor(After(inputs), t);
    }
  }

  // ---------------------------------------------------------------------------
  // Exactly which input is lost
  // ---------------------------------------------------------------------------

  /** What a queue looks like to the next message: no batch is open, or one for a target with some bytes so far. */
  datatype Open = NoBatch | Collecting(target: nat, size: nat)

  /** A message that is queued while a batch for another target still has room. */
  predicate Drops(open: Open, m: Input) {
    open.Collecting? && m.ready && open.size < MAX_BATCH_SIZE && m.target != open.target
  }

  function Next(open: Open, m: Input): Open {
    if open.Collecting? && m.ready && open.size < MAX_BATCH_SIZE then
      if m.target == open.target then Collecting(open.target, open.size + |m.data|) else NoBatch
    else Collecting(m.target, |m.data|)
  }

  /** What the messages before the `i`th leave open. */
  function OpenAt(open: Open, inputs: seq<Input>, i: nat): Open
    requires i <= |inputs|
    decreases i
  {
    if i == 0 then open else OpenAt(Next(open, inputs[0]), inputs[1..], i - 1)
  }

  /** The messages that the queue drops. */
  function Dropped(open: Open, inputs: seq<Input>): seq<Input>
    decreases |inputs|
  {
    if inputs == [] then []
    else (if Drops(open, inputs[0]) then [inputs[0]] else []) + Dropped(Next(open, inputs[0]), inputs[1..])
  }

  /** A batch that cannot take the next message is as good as none. */
  lemma ClosedBatch(open: Open, inputs: seq<Input>)
    requires open.Collecting? ==> inputs == [] || !inputs[0].ready || open.size >= MAX_BATCH_SIZE
    ensures Dropped(open, inputs) == Dropped(NoBatch, inputs)
  {
  }

  lemma {:induction false} BatchDrops(target: nat, data: seq<byte>, rest: seq<Input>)
    ensures var b := TakeBatch(target, data, rest);
            Dropped(Collecting(target, |data|), rest) ==
            (if b.lost then [rest[b.used - 1]] else []) + Dropped(NoBatch, rest[b.used..])
    decreases |rest|
  {
    if |data| >= MAX_BATCH_SIZE || rest == [] || !rest[0].ready {
      ClosedBatch(Collecting(target, |data|), rest);
      assert rest[0..] == rest && [] + Dropped(NoBatch, rest) == Dropped(NoBatch, rest);
    } else if rest[0].target == target {
      var b := TakeBatch(target, data + rest[0].data, rest[1..]);
      BatchDrops(target, data + rest[0].data, rest[1..]);
      assert rest[1..][b.used..] == rest[b.used + 1..];
      assert [] + Dropped(Collecting(target, |data + rest[0].data|), rest[1..]) ==
             Dropped(Collecting(target, |data + rest[0].data|), rest[1..]);
    }
  }

  /** The lost messages are those that are dropped as the queue is gone through once. */
  lemma {:induction false} LostIsDropped(inputs: seq<Input>)
    ensures Lost(inputs) == Dropped(NoBatch, inputs)
    decreases |inputs|
  {
    if inputs != [] {
      var b, rest := First(inputs), inputs[1..];
      BatchDrops(inputs[0].target, inputs[0].data, rest);
      assert rest[b.used..] == After(inputs);
      assert b.lost ==> rest[b.used - 1] == inputs[b.used];
      LostIsDropped(After(inputs));
      assert [] + Dropped(Next(NoBatch, inputs[0]), rest) == Dropped(Next(NoBatch, inputs[0]), rest);
    }
  }

  /** Some bytes for `t` are in the `i`th message, and it is dropped. */
  predicate DropsFor(open: Open, inputs: seq<Input>, i: nat, t: nat)
    requires i < |inputs|
  {
    Drops(OpenAt(open, inputs, i), inputs[i]) && inputs[i].target == t && inputs[i].data != []
  }

  lemma {:induction false} NothingDroppedForIff(open: Open, inputs: seq<Input>, t: nat)
    ensures InputFor(Dropped(open, inputs), t) == [] <==> forall i | 0 <= i < |inputs| :: !DropsFor(open, inputs, i, t)
    decreases |inputs|
  {
    if inputs != [] {
      var m, rest, next := inputs[0], inputs[1..], Next(open, inputs[0]);
      NothingDroppedForIff(next, rest, t);
      InputForAppend(if Drops(open, m) then [m] else [], Dropped(next, rest), t);
      assert InputFor([m], t) == For(m, t) + InputFor([m][1..], t) == For(m, t);
      assert DropsFor(open, inputs, 0, t) <==> Drops(open, m) && For(m, t) != [];
      forall i | 0 <= i < |rest| ensures DropsFor(open, inputs, i + 1, t) <==> DropsFor(next, rest, i, t) {
        assert inputs[i + 1] == rest[i];
      }
      assert forall i | 1 <= i < |inputs| :: DropsFor(open, inputs, i, t) <==> DropsFor(next, rest, i - 1, t);
    }
  }

  /**
   A shell gets its input, whole and in order, exactly if none of its bytes is queued while a batch for another
   shell is open and has room.
   */
  lemma InputArrivesIff(inputs: seq<Input>, t: nat)
    ensures WrittenFor(Frames(inputs), t) == InputFor(inputs, t)
      <==> forall i | 0 <= i < |inputs| :: !DropsFor(NoBatch, inputs, i, t)
  {
    NothingDuplicated(inputs, t);
    if InputFor(Lost(inputs), t) == [] {
      WholeIfNothingLost(inputs, t);
    }
    LostIsDropped(inputs);
    NothingDroppedForIff(NoBatch, inputs, t);
  }

  // ---------------------------------------------------------------------------
  // When nothing is lost at all
  // ---------------------------------------------------------------------------

  /** A message is queued right behind one for another target. */
  predicate IsSwitch(inputs: seq<Input>, i: nat)
    requires 1 <= i < |inputs|
  {
    inputs[i].ready && inputs[i].target != inputs[i - 1].target
  }

  predicate NoSwitch(inputs: seq<Input>) {
    forall i | 1 <= i < |inputs| :: !IsSwitch(inputs, i)
  }

  /** The bytes that stand queued without a gap up to the `i`th message, counted anew after every full batch. */
  function Filled(inputs: seq<Input>, i: nat): nat
    requires i < |inputs|
  {
    if i == 0 || !inputs[i].ready || Filled(inputs, i - 1) >= 65_536 then |inputs[i].data|
    else Filled(inputs, i - 1) + |inputs[i].data|
  }

  /** A switch that comes when the batch before it is full. */
  predicate HarmlessSwitch(inputs: seq<Input>, i: nat)
    requires 1 <= i < |inputs|
  {
    IsSwitch(inputs, i) ==> Filled(inputs, i - 1) >= 65_536
  }

  lemma {:induction false} OpenAtNext(open: Open, inputs: seq<Input>, i: nat)
    requires i < |inputs|
    ensures OpenAt(open, inputs, i + 1) == Next(OpenAt(open, inputs, i), inputs[i])
    decreases i
  {
    if i > 0 {
      OpenAtNext(Next(open, inputs[0]), inputs[1..], i - 1);
    }
  }

  /** As long as nothing was dropped, the open batch is for the last message's target and holds what is filled. */
  lemma {:induction false} OpenIsFilled(inputs: seq<Input>, i: nat)
    requires 1 <= i <= |inputs| && forall j | 1 <= j < i :: HarmlessSwitch(inputs, j)
    ensures OpenAt(NoBatch, inputs, i) == Collecting(inputs[i - 1].target, Filled(inputs, i - 1))
    decreases i
  {
    OpenAtNext(NoBatch, inputs, i - 1);
    if i > 1 {
      OpenIsFilled(inputs, i - 1);
      assert HarmlessSwitch(inputs, i - 1);
    }
  }

  lemma {:induction false} NothingDroppedIff(open: Open, inputs: seq<Input>)
    ensures Dropped(open, inputs) == [] <==> forall i | 0 <= i < |inputs| :: !Drops(OpenAt(open, inputs, i), inputs[i])
    decreases |inputs|
  {
    if inputs != [] {
      var rest, next := inputs[1..], Next(open, inputs[0]);
      NothingDroppedIff(next, rest);
      forall i | 0 <= i < |rest| ensures OpenAt(open, inputs, i + 1) == OpenAt(next, rest, i) && inputs[i + 1] == rest[i] {
      }
      assert OpenAt(open, inputs, 0) == open;
      assert forall i | 1 <= i < |inputs| :: OpenAt(open, inputs, i) == OpenAt(next, rest, i - 1) && inputs[i] == rest[i - 1];
    }
  }

  /** Nothing is lost exactly if every switch to another target comes when the batch before it is full. */
  lemma NothingLostIff(inputs: seq<Input>)
    ensures Lost(inputs) == [] <==> forall i | 1 <= i < |inputs| :: HarmlessSwitch(inputs, i)
  {
    LostIsDropped(inputs);
    NothingDroppedIff(NoBatch, inputs);
    if forall i | 1 <= i < |inputs| :: HarmlessSwitch(inputs, i) {
      HarmlessSwitchesDropNothing(inputs);
    } else {
      FirstHarmfulSwitch(inputs, |inputs|);
    }
  }

  lemma HarmlessSwitchesDropNothing(inputs: seq<Input>)
    requires forall i | 1 <= i < |inputs| :: HarmlessSwitch(inputs, i)
    ensures forall i | 0 <= i < |inputs| :: !Drops(OpenAt(NoBatch, inputs, i), inputs[i])
  {
    forall i | 0 <= i < |inputs| ensures !Drops(OpenAt(NoBatch, inputs, i), inputs[i]) {
      if i > 0 {
        OpenIsFilled(inputs, i);
        assert HarmlessSwitch(inputs, i);
      }
    }
  }

  lemma {:induction false} FirstHarmfulSwitch(inputs: seq<Input>, n: nat)
    requires 1 <= n <= |inputs| && exists i | 1 <= i < n :: !HarmlessSwitch(inputs, i)
    ensures exists i | 0 <= i < |inputs| :: Drops(OpenAt(NoBatch, inputs, i), inputs[i])
    decreases n
  {
    if exists i | 1 <= i < n - 1 :: !HarmlessSwitch(inputs, i) {
      FirstHarmfulSwitch(inputs, n - 1);
    } else {
      OpenIsFilled(inputs, n - 1);
      assert Drops(OpenAt(NoBatch, inputs, n - 1), inputs[n - 1]);
    }
  }

  /** All the bytes queued. */
  function Size(inputs: seq<Input>): nat {
    if inputs == [] then 0 else Size(inputs[..|inputs| - 1]) + |inputs[|inputs| - 1].data|
  }

  lemma {:induction false} FilledIsPart(inputs: seq<Input>, i: nat)
    requires i < |inputs|
    ensures Filled(inputs, i) <= Size(inputs[..i + 1])
    decreases i
  {
    assert inputs[..i + 1][..i] == inputs[..i];
    if i > 0 {
      FilledIsPart(inputs, i - 1);
    }
  }

  lemma {:induction false} SizeGrows(inputs: seq<Input>, n: nat)
    requires n <= |inputs|
    ensures Size(inputs[..n]) <= Size(inputs)
    decreases |inputs| - n
  {
    if n < |inputs| {
      assert inputs[..n + 1][..n] == inputs[..n];
      SizeGrows(inputs, n + 1);
    } else {
      assert inputs[..n] == inputs;
    }
  }

  /** Input that does not fill a batch arrives whole exactly if no message is queued right behind one for another target. */
  lemma LittleInputArrivesIff(inputs: seq<Input>)
    requires Size(inputs) < 65_536
    ensures Lost(inputs) == [] <==> NoSwitch(inputs)
  {
    NothingLostIff(inputs);
    forall i | 1 <= i < |inputs| ensures HarmlessSwitch(inputs, i) <==> !IsSwitch(inputs, i) {
      FilledIsPart(inputs, i - 1);
      SizeGrows(inputs, i);
    }
  }

  /** Nothing is lost as long as no message is queued right behind one for another target. */
  lemma NothingLostWithoutSwitch(inputs: seq<Input>)
    requires NoSwitch(inputs)
    ensures Lost(inputs) == []
  {
    NothingLostIff(inputs);
    forall i | 1 <= i < |inputs| ensures HarmlessSwitch(inputs, i) {
      assert !IsSwitch(inputs, i);
    }
  }

  /** Two short messages queued for two shells: the second never gets its own. */
  lemma SwitchLosesInput(a: Input, b: Input)
    requires a.target != b.target && b.ready && |a.data| < 65_536
    ensures Frames([a, b]) == [Frame(a.target, a.data)] && Lost([a, b]) == [b]
  {
    var inputs := [a, b];
    assert inputs[1..] == [b] && After(inputs) == [];
  }
}
