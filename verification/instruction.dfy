/** Argument resolution of the virtual machine's builtins in
    `src/vm/instruction.c`. Every builtin pops its arguments from the operand
    stack, whose entries are a reference to a variable, an immediate value,
    or the "omitted" sentinel; it checks the entry's kind before it reads the
    payload and substitutes a default for an omitted optional argument. The
    stack is a sequence whose last element is the top. What the builtins
    then hand to the audio and operating-system layers (the beep, the
    playback data, the sleep) is returned as a value. */
module Instruction {
  import opened Outcomes

  /** The type tags of `variable.h`, extended with the ones the builtins
      test. */
  datatype VarType =
    | TyVoid | TyConst | TyFloat | TyChannel | TySound | TyFilter | TyFile
    | TyINDevice | TyOUTDevice | TyArray | TyString | TyOscil | TyFunc

  /** A variable: its tag, its numeric value, and the elements of the array
      it holds when it is an array. */
  datatype Var = Var(ty: VarType, f: real, items: seq<real>)

  datatype Entry = VarRef(v: Var) | Immediate(x: real) | Omitted

  /** The filter kinds of `filter.h`. */
  datatype FilterKind =
    | NoneFilter | FadeIn | FadeOut | Amp | Tremolo | Adsr | LowPass
    | HighPass | Vibrato | Wah | Delay | Reverb

  datatype Filter = Filter(kind: FilterKind, args: seq<Entry>)

  /** A sound, as far as the builtins touch it: its filter chain. */
  datatype Sound = Sound(filters: seq<Filter>)

  /** A builtin's result together with the stack it leaves. */
  datatype Popped<T> = Popped(value: T, rest: seq<Entry>)

  predicate IsNumber(v: Var) {
    v.ty == TyFloat || v.ty == TyConst
  }

  /** An entry a numeric argument accepts: anything but a reference to a
      variable that is neither a float nor a constant. */
  predicate NumericOk(e: Entry) {
    !(e.VarRef? && !IsNumber(e.v))
  }

  /** The value a numeric argument takes from an entry, `default` when it
      was omitted. */
  function Supplied(e: Entry, default: real): real {
    match e
    case VarRef(v) => v.f
    case Immediate(x) => x
    case Omitted => default
  }

  function Top(stack: seq<Entry>): Entry
    requires |stack| > 0
  {
    stack[|stack| - 1]
  }

  /** One optional numeric argument, as `beep` and `play` pop it. An empty
      stack is a stack-discipline violation. */
  function NumArg(stack: seq<Entry>, default: real): (r: Result<Popped<real>>)
    ensures r.Ok? <==> |stack| > 0 && NumericOk(Top(stack))
    ensures |stack| == 0 ==> r == Error(InternalError)
    ensures |stack| > 0 && !NumericOk(Top(stack)) ==> r == Error(ArgumentsTypeError)
    ensures r.Ok? ==> r.value == Popped(Supplied(Top(stack), default), stack[..|stack| - 1])
  {
    if |stack| == 0 then Error(InternalError)
    else
      var rest := stack[..|stack| - 1];
      match Top(stack)
      case VarRef(v) => if !IsNumber(v) then Error(ArgumentsTypeError) else Ok(Popped(v.f, rest))
      case Immediate(x) => Ok(Popped(x, rest))
      case Omitted => Ok(Popped(default, rest))
  }

  // ---------------------------------------------------------------------
  // print and sleep: the argument they pop.

  /** `print` pops its one mandatory argument; an omitted one is an error.
      What it prints is left out. */
  function PrintArg(stack: seq<Entry>): (r: Result<Popped<Entry>>)
    ensures r.Ok? <==> |stack| > 0 && !Top(stack).Omitted?
    ensures |stack| > 0 && Top(stack).Omitted? ==> r == Error(MissingArgumentsError)
    ensures r.Ok? ==> r.value == Popped(Top(stack), stack[..|stack| - 1])
  {
    if |stack| == 0 then Error(InternalError)
    else if Top(stack).Omitted? then Error(MissingArgumentsError)
    else Ok(Popped(Top(stack), stack[..|stack| - 1]))
  }

  /** The C conversion of a double to `int64_t`: truncation toward zero. */
  function Trunc(x: real): (n: int)
    ensures x >= 0.0 ==> n >= 0 && n as real <= x < n as real + 1.0
    ensures x < 0.0 ==> n <= 0 && n as real - 1.0 < x <= n as real
  {
    if x >= 0.0 then x.Floor else -((-x).Floor)
  }

  /** `sleep` pops its one mandatory argument, without checking a
      variable's type, and sleeps for its whole seconds in milliseconds. */
  function SleepArg(stack: seq<Entry>): (r: Result<Popped<int>>)
    ensures r.Ok? <==> |stack| > 0 && !Top(stack).Omitted?
    ensures |stack| > 0 && Top(stack).Omitted? ==> r == Error(MissingArgumentsError)
    ensures r.Ok? ==> r.value.rest == stack[..|stack| - 1]
    ensures r.Ok? ==> r.value.value == 1000 * Trunc(Supplied(Top(stack), 0.0))
    ensures r.Ok? ==> r.value.value % 1000 == 0
  {
    if |stack| == 0 then Error(InternalError)
    else
      var rest := stack[..|stack| - 1];
      match Top(stack)
      case VarRef(v) => Ok(Popped(Trunc(v.f) * 1000, rest))
      case Immediate(x) => Ok(Popped(Trunc(x) * 1000, rest))
      case Omitted => Error(MissingArgumentsError)
  }

  // ---------------------------------------------------------------------
  // beep

  /** The call `beep` makes: a frequency and a duration in milliseconds. */
  datatype BeepCall = BeepCall(freq: real, ms: real)

  /** `beep` pops the duration (default 1 second) and then the frequency
      (default 500 Hz). */
  function Beep(stack: seq<Entry>): (r: Result<Popped<BeepCall>>)
    ensures r.Ok? <==> |stack| >= 2 && NumericOk(stack[|stack| - 1]) && NumericOk(stack[|stack| - 2])
    ensures |stack| > 0 && !NumericOk(Top(stack)) ==> r == Error(ArgumentsTypeError)
    ensures r.Ok? ==> r.value.rest == stack[..|stack| - 2]
    ensures r.Ok? ==> r.value.value.ms == Supplied(stack[|stack| - 1], 1.0) * 1000.0
    ensures r.Ok? ==> r.value.value.freq == Supplied(stack[|stack| - 2], 500.0)
  {
    var duration :- NumArg(stack, 1.0);
    var freq :- NumArg(duration.rest, 500.0);
    Ok(Popped(BeepCall(freq.value, duration.value * 1000.0), freq.rest))
  }

  /** With both arguments omitted, `beep` sounds 500 Hz for one second and
      still consumes both sentinels. */
  lemma BeepDefaults(below: seq<Entry>)
    ensures Beep(below + [Omitted, Omitted]) == Ok(Popped(BeepCall(500.0, 1000.0), below))
  {
    var s := below + [Omitted, Omitted];
    assert s[..|s| - 1] == below + [Omitted];
    assert s[..|s| - 1][..|s| - 2] == below;
  }

  // ---------------------------------------------------------------------
  // play

  /** The correction of a frequency that would make playback fail. */
  function Corrected(x: real): (y: real)
    ensures y > 0.0
    ensures x > 0.0 ==> y == x
  {
    if x <= 0.0 then 1.0 else x
  }

  /** The fill loop of `play_sub` over an array argument: corrected
      elements, one per voice, stopping at `maxPoly`. */
  function FillVoices(data: seq<real>, maxPoly: nat): (r: seq<real>)
    ensures |r| == if |data| < maxPoly then |data| else maxPoly
  {
    if |data| == 0 || maxPoly == 0 then []
    else [Corrected(data[0])] + FillVoices(data[1..], maxPoly - 1)
  }

  lemma {:induction false} FillVoicesCorrects(data: seq<real>, maxPoly: nat)
    ensures forall i :: 0 <= i < |FillVoices(data, maxPoly)| ==> FillVoices(data, maxPoly)[i] == Corrected(data[i])
  {
    if |data| > 0 && maxPoly > 0 {
      FillVoicesCorrects(data[1..], maxPoly - 1);
      var r := FillVoices(data, maxPoly);
      assert r == [Corrected(data[0])] + FillVoices(data[1..], maxPoly - 1);
      forall i | 1 <= i < |r| ensures r[i] == Corrected(data[i]) {
        assert r[i] == FillVoices(data[1..], maxPoly - 1)[i - 1] && data[1..][i - 1] == data[i];
      }
    }
  }

  /** The frequency argument: the filled part of the buffer and the voice
      count `sound_num`. */
  datatype Voices = Voices(filled: seq<real>, count: nat)

  /** What the frequency argument accepts: a number or an array variable,
      an immediate, or the sentinel. */
  predicate FreqOk(e: Entry) {
    !(e.VarRef? && !IsNumber(e.v) && e.v.ty != TyArray)
  }

  /** The frequency pop of `play_sub`. An array gives one voice per element
      with the non-positive ones corrected; a number variable is corrected
      only when it is exactly 0; an immediate is corrected when it is not
      positive; an omitted argument gives 500 Hz. */
  function FreqArg(stack: seq<Entry>, maxPoly: nat): (r: Result<Popped<Voices>>)
    requires maxPoly >= 1
    ensures r.Ok? <==> |stack| > 0 && FreqOk(Top(stack))
    ensures |stack| > 0 && !FreqOk(Top(stack)) ==> r == Error(ArgumentsTypeError)
    ensures r.Ok? ==> r.value.rest == stack[..|stack| - 1]
    ensures r.Ok? ==> 1 <= |r.value.value.filled| <= maxPoly || (|r.value.value.filled| == 0 && r.value.value.count == 0)
    ensures r.Ok? ==> |r.value.value.filled| == if r.value.value.count < maxPoly then r.value.value.count else maxPoly
    ensures r.Ok? && Top(stack) == Omitted ==> r.value.value == Voices([500.0], 1)
    ensures r.Ok? && Top(stack).Immediate? ==> r.value.value == Voices([Corrected(Top(stack).x)], 1)
    ensures r.Ok? && Top(stack).VarRef? && IsNumber(Top(stack).v) && Top(stack).v.ty != TyArray ==>
      r.value.value == Voices([if Top(stack).v.f == 0.0 then 1.0 else Top(stack).v.f], 1)
    ensures r.Ok? && Top(stack).VarRef? && Top(stack).v.ty == TyArray ==>
      && r.value.value.count == |Top(stack).v.items|
      && forall i :: 0 <= i < |r.value.value.filled| ==> r.value.value.filled[i] == Corrected(Top(stack).v.items[i])
  {
    if |stack| == 0 then Error(InternalError)
    else
      var rest := stack[..|stack| - 1];
      match Top(stack)
      case VarRef(v) =>
        if v.ty == TyArray then
          FillVoicesCorrects(v.items, maxPoly);
          Ok(Popped(Voices(FillVoices(v.items, maxPoly), |v.items|), rest))
        else if IsNumber(v) then Ok(Popped(Voices([if v.f == 0.0 then 1.0 else v.f], 1), rest))
        else Error(ArgumentsTypeError)
      case Immediate(x) => Ok(Popped(Voices([Corrected(x)], 1), rest))
      case Omitted => Ok(Popped(Voices([500.0], 1), rest))
  }

  /** What the sound argument accepts: a sound variable or the sentinel. */
  predicate SoundOk(e: Entry) {
    (e.VarRef? && e.v.ty == TySound) || e.Omitted?
  }

  /** The sound pop of `play_sub`: a sound variable, or none when omitted. */
  function SoundArg(stack: seq<Entry>): (r: Result<Popped<Option<Var>>>)
    ensures r.Ok? <==> |stack| > 0 && SoundOk(Top(stack))
    ensures |stack| > 0 && !SoundOk(Top(stack)) ==> r == Error(ArgumentsTypeError)
    ensures r.Ok? ==> r.value.rest == stack[..|stack| - 1]
    ensures r.Ok? ==> (r.value.value.None? <==> Top(stack).Omitted?)
    ensures r.Ok? && r.value.value.Some? ==> Top(stack) == VarRef(r.value.value.value)
  {
    if |stack| == 0 then Error(InternalError)
    else
      match Top(stack)
      case VarRef(v) => if v.ty != TySound then Error(ArgumentsTypeError) else Ok(Popped(Some(v), stack[..|stack| - 1]))
      case Immediate(_) => Error(ArgumentsTypeError)
      case Omitted => Ok(Popped(None, stack[..|stack| - 1]))
  }

  /** The volume `play_sub` settles on: out of `[0, 100]` it falls back to
      80, and the safety flag forces 35. */
  function Volume(v: real, safety: bool): (r: real)
    ensures 0.0 <= r <= 100.0
    ensures safety ==> r == 35.0
    ensures !safety && 0.0 <= v <= 100.0 ==> r == v
    ensures !safety && !(0.0 <= v <= 100.0) ==> r == 80.0
  {
    if safety then 35.0 else if 0.0 <= v <= 100.0 then v else 80.0
  }

  datatype PlayStatus = PlayStatus(safety: bool, samplingRate: real)

  /** The four arguments `play_sub` pops, in order. */
  datatype PlayArgs = PlayArgs(sound: Option<Var>, volume: real, duration: real, voices: Voices)

  function PlayPops(stack: seq<Entry>, maxPoly: nat): (r: Result<Popped<PlayArgs>>)
    requires maxPoly >= 1
    ensures r.Ok? <==>
      && |stack| >= 4 && SoundOk(stack[|stack| - 1]) && NumericOk(stack[|stack| - 2])
      && NumericOk(stack[|stack| - 3]) && FreqOk(stack[|stack| - 4])
    ensures r.Ok? ==> r.value.rest == stack[..|stack| - 4]
    ensures r.Ok? ==> r.value.value.volume == Supplied(stack[|stack| - 2], 80.0)
    ensures r.Ok? ==> r.value.value.duration == Supplied(stack[|stack| - 3], 1.0)
    ensures r.Ok? ==> FreqArg(stack[..|stack| - 3], maxPoly) == Ok(Popped(r.value.value.voices, r.value.rest))
    ensures r.Ok? ==> SoundArg(stack).value.value == r.value.value.sound
  {
    var sound :- SoundArg(stack);
    var volume :- NumArg(sound.rest, 80.0);
    var duration :- NumArg(volume.rest, 1.0);
    assert duration.rest == stack[..|stack| - 3];
    var freq :- FreqArg(duration.rest, maxPoly);
    Ok(Popped(PlayArgs(sound.value, volume.value, duration.value, freq.value), freq.rest))
  }

  /** What `play_sub` writes into the playback data. */
  datatype PlayData = PlayData(voices: seq<real>, length: real, sound: Option<Var>, volume: int)

  /** The frequency buffer of `play_sub`: `maxPoly` zero-initialised slots
      of which the fill wrote the first ones. */
  function Buffer(filled: seq<real>, maxPoly: nat): (b: seq<real>)
    requires |filled| <= maxPoly
    decreases maxPoly - |filled|
    ensures |b| == maxPoly && b[..|filled|] == filled
  {
    if |filled| == maxPoly then filled else Buffer(filled + [0.0], maxPoly)
  }

  /** The frequency entry of a stack `play_sub` can copy without reading
      past its buffer: not an array longer than `maxPoly`. */
  predicate VoicesFit(stack: seq<Entry>, maxPoly: nat) {
    |stack| >= 4 && stack[|stack| - 4].VarRef? && stack[|stack| - 4].v.ty == TyArray ==>
      |stack[|stack| - 4].v.items| <= maxPoly
  }

  /** `play_sub` as written: it copies `sound_num` entries out of the
      `maxPoly`-slot buffer, which stays inside the buffer only when the
      voices fit. */
  function Play(status: PlayStatus, stack: seq<Entry>, maxPoly: nat): (r: Result<Popped<PlayData>>)
    requires maxPoly >= 1 && VoicesFit(stack, maxPoly)
    ensures r.Ok? <==> PlayPops(stack, maxPoly).Ok?
    ensures r.Ok? ==> r.value.rest == stack[..|stack| - 4]
    ensures r.Ok? ==> 0 <= r.value.value.volume <= 100
    ensures r.Ok? ==> r.value.value.voices == PlayPops(stack, maxPoly).value.value.voices.filled
    ensures r.Ok? ==> r.value.value.length == status.samplingRate * Supplied(stack[|stack| - 3], 1.0)
    ensures r.Ok? && status.safety ==> r.value.value.volume == 35
    ensures r.Ok? ==> r.value.value.volume == Volume(Supplied(stack[|stack| - 2], 80.0), status.safety).Floor
    ensures r.Ok? ==> r.value.value.sound == if stack[|stack| - 1].Omitted? then None else Some(stack[|stack| - 1].v)
  {
    var p :- PlayPops(stack, maxPoly);
    var a := p.value;
    var buffer := Buffer(a.voices.filled, maxPoly);
    var volume := Volume(a.volume, status.safety);
    assert a.voices.count <= maxPoly;
    Ok(Popped(PlayData(buffer[..a.voices.count], status.samplingRate * a.duration, a.sound, volume.Floor), p.rest))
  }

  /** The copy of `play_sub` reads `sound_num` slots of a buffer of
      `maxPoly`: an array of `maxPoly + 1` frequencies passes every check
      and makes it read one slot past the buffer. */
  lemma VoiceCopyOverruns(maxPoly: nat, items: seq<real>)
    requires maxPoly >= 1 && |items| == maxPoly + 1
    ensures var stack := [VarRef(Var(TyArray, 0.0, items)), Omitted, Omitted, Omitted];
      && PlayPops(stack, maxPoly).Ok?
      && PlayPops(stack, maxPoly).value.value.voices.count == maxPoly + 1
      && |Buffer(PlayPops(stack, maxPoly).value.value.voices.filled, maxPoly)| == maxPoly
      && !VoicesFit(stack, maxPoly)
  {
    var stack := [VarRef(Var(TyArray, 0.0, items)), Omitted, Omitted, Omitted];
    assert stack[..3] == [VarRef(Var(TyArray, 0.0, items)), Omitted, Omitted];
    assert stack[..3][..2] == [VarRef(Var(TyArray, 0.0, items)), Omitted];
    assert stack[..3][..2][..1] == [VarRef(Var(TyArray, 0.0, items))];
  }

  /** `play_sub` with the copy capped at `maxPoly` voices, as the fill loop
      is: defined for every stack. */
  function PlayCapped(status: PlayStatus, stack: seq<Entry>, maxPoly: nat): (r: Result<Popped<PlayData>>)
    requires maxPoly >= 1
    ensures r.Ok? <==> PlayPops(stack, maxPoly).Ok?
    ensures r.Ok? ==> r.value.rest == stack[..|stack| - 4]
    ensures r.Ok? ==> 0 <= r.value.value.volume <= 100
    ensures r.Ok? ==> |r.value.value.voices| <= maxPoly
    ensures r.Ok? ==> forall i :: 0 <= i < |r.value.value.voices| ==> r.value.value.voices[i] != 0.0
    ensures r.Ok? ==> r.value.value.voices == PlayPops(stack, maxPoly).value.value.voices.filled
    ensures r.Ok? && stack[|stack| - 4].VarRef? && stack[|stack| - 4].v.ty == TyArray ==>
      var items := stack[|stack| - 4].v.items;
      && |r.value.value.voices| == (if |items| < maxPoly then |items| else maxPoly)
      && forall i :: 0 <= i < |r.value.value.voices| ==> r.value.value.voices[i] == Corrected(items[i])
    ensures r.Ok? ==> r.value.value.length == status.samplingRate * Supplied(stack[|stack| - 3], 1.0)
    ensures r.Ok? ==> r.value.value.volume == Volume(Supplied(stack[|stack| - 2], 80.0), status.safety).Floor
    ensures r.Ok? ==> r.value.value.sound == if stack[|stack| - 1].Omitted? then None else Some(stack[|stack| - 1].v)
  {
    var p :- PlayPops(stack, maxPoly);
    var a := p.value;
    VoicesNonzero(stack[..|stack| - 3], maxPoly);
    Ok(Popped(PlayData(a.voices.filled, status.samplingRate * a.duration, a.sound, Volume(a.volume, status.safety).Floor), p.rest))
  }

  /** No voice the frequency pop yields is 0, the frequency playback
      cannot take; a negative number variable is passed on unchanged. */
  lemma VoicesNonzero(stack: seq<Entry>, maxPoly: nat)
    requires maxPoly >= 1
    ensures FreqArg(stack, maxPoly).Ok? ==>
      forall i :: 0 <= i < |FreqArg(stack, maxPoly).value.value.filled| ==> FreqArg(stack, maxPoly).value.value.filled[i] != 0.0
  {
    if FreqArg(stack, maxPoly).Ok? && Top(stack).VarRef? && Top(stack).v.ty == TyArray {
      FillVoicesCorrects(Top(stack).v.items, maxPoly);
    }
  }

  /** Where the code as written is defined, the capped copy agrees with it. */
  lemma PlayCappedAgrees(status: PlayStatus, stack: seq<Entry>, maxPoly: nat)
    requires maxPoly >= 1 && VoicesFit(stack, maxPoly)
    ensures PlayCapped(status, stack, maxPoly) == Play(status, stack, maxPoly)
  {
    if PlayPops(stack, maxPoly).Ok? {
      var a := PlayPops(stack, maxPoly).value.value;
      assert Buffer(a.voices.filled, maxPoly)[..a.voices.count] == a.voices.filled;
    }
  }

  // ---------------------------------------------------------------------
  // define_array and connect_filter: a counted run of entries.

  ghost predicate NoneOmitted(s: seq<Entry>) {
    forall i :: 0 <= i < |s| ==> !s[i].Omitted?
  }

  /** Pop `n` entries, each a variable or an immediate, and return them in
      push order: the last one popped comes first. */
  function PopEntries(stack: seq<Entry>, n: nat): (r: Result<Popped<seq<Entry>>>)
    decreases n
    ensures r.Ok? ==> n <= |stack| && r.value.value == stack[|stack| - n..] && r.value.rest == stack[..|stack| - n]
    ensures r.Error? ==> r.kind == InternalError || r.kind == ArgumentsTypeError
  {
    if n == 0 then Ok(Popped([], stack))
    else if |stack| == 0 then Error(InternalError)
    else if Top(stack).Omitted? then Error(ArgumentsTypeError)
    else
      var p :- PopEntries(stack[..|stack| - 1], n - 1);
      Ok(Popped(p.value + [Top(stack)], p.rest))
  }

  /** The outcomes of a counted pop: it succeeds exactly when `n` entries
      are there and none is omitted; an omitted entry met first is a type
      error, and running out first is a stack-discipline violation. */
  lemma {:induction false} PopEntriesOutcome(stack: seq<Entry>, n: nat)
    decreases n
    ensures var k := if n <= |stack| then n else |stack|;
      && (PopEntries(stack, n).Ok? <==> n <= |stack| && NoneOmitted(stack[|stack| - n..]))
      && (PopEntries(stack, n) == Error(ArgumentsTypeError) <==> !NoneOmitted(stack[|stack| - k..]))
      && (PopEntries(stack, n) == Error(InternalError) <==> n > |stack| && NoneOmitted(stack))
  {
    if n > 0 && |stack| > 0 && !Top(stack).Omitted? {
      var s' := stack[..|stack| - 1];
      PopEntriesOutcome(s', n - 1);
      var k := if n <= |stack| then n else |stack|;
      assert stack[|stack| - k..] == s'[|s'| - (k - 1)..] + [Top(stack)];
      NoneOmittedSnoc(s'[|s'| - (k - 1)..], Top(stack));
      assert stack == s' + [Top(stack)];
      NoneOmittedSnoc(s', Top(stack));
    } else if n > 0 && |stack| > 0 {
      assert stack[|stack| - 1..] == [Top(stack)];
      assert !NoneOmitted(stack[|stack| - 1..]);
      if n <= |stack| {
        assert stack[|stack| - n..][n - 1] == Top(stack);
      }
    }
  }

  lemma NoneOmittedSnoc(s: seq<Entry>, e: Entry)
    ensures NoneOmitted(s + [e]) <==> NoneOmitted(s) && !e.Omitted?
  {
    if NoneOmitted(s + [e]) {
      assert forall i :: 0 <= i < |s| ==> s[i] == (s + [e])[i];
      assert (s + [e])[|s|] == e;
    }
  }

  /** The number an entry that is not omitted stores. */
  function Values(es: seq<Entry>): (r: seq<real>)
    ensures |r| == |es|
  {
    if |es| == 0 then [] else Values(es[..|es| - 1]) + [Supplied(es[|es| - 1], 0.0)]
  }

  /** `define_array`: pop `n` entries (a variable gives its value, without
      a type check) into an array in push order; the variable becomes that
      array. */
  function DefineArray(v: Var, n: nat, stack: seq<Entry>): (r: Result<Popped<Var>>)
    ensures r.Ok? ==> n <= |stack| && r.value.rest == stack[..|stack| - n]
    ensures r.Ok? ==> r.value.value.ty == TyArray && |r.value.value.items| == n
    ensures r.Ok? ==> forall i :: 0 <= i < n ==> r.value.value.items[i] == Supplied(stack[|stack| - n + i], 0.0)
  {
    var p :- PopEntries(stack, n);
    ValuesAt(p.value);
    Ok(Popped(v.(ty := TyArray, items := Values(p.value)), p.rest))
  }

  lemma {:induction false} ValuesAt(es: seq<Entry>)
    ensures forall i :: 0 <= i < |es| ==> Values(es)[i] == Supplied(es[i], 0.0)
  {
    if |es| > 0 {
      ValuesAt(es[..|es| - 1]);
      assert forall i :: 0 <= i < |es| - 1 ==> Values(es)[i] == Values(es[..|es| - 1])[i];
    }
  }

  /** `define_array` as its loop runs: the `i`-th entry popped is stored at
      index `n - i - 1`. */
  method DefineArrayLoop(v: Var, n: nat, stack: seq<Entry>) returns (r: Result<Popped<Var>>)
    ensures r == DefineArray(v, n, stack)
  {
    var data := seq(n, _ => 0.0);
    var st := stack;
    var i := 0;
    while i < n
      invariant 0 <= i <= n && i <= |stack| && |data| == n
      invariant st == stack[..|stack| - i]
      invariant NoneOmitted(stack[|stack| - i..])
      invariant forall j :: n - i <= j < n ==> data[j] == Supplied(stack[|stack| - n + j], 0.0)
      decreases n - i
    {
      if |st| == 0 {
        DefineArrayRunsOut(v, n, stack);
        return Error(InternalError);
      }
      match st[|st| - 1] {
        case VarRef(w) => data := data[n - i - 1 := w.f];
        case Immediate(x) => data := data[n - i - 1 := x];
        case Omitted =>
          DefineArrayMeetsOmitted(v, n, stack, i);
          return Error(ArgumentsTypeError);
      }
      assert stack[|stack| - (i + 1)..] == [st[|st| - 1]] + stack[|stack| - i..];
      st := st[..|st| - 1];
      i := i + 1;
    }
    DefineArrayFills(v, n, stack, data);
    r := Ok(Popped(v.(ty := TyArray, items := data), st));
  }

  lemma DefineArrayRunsOut(v: Var, n: nat, stack: seq<Entry>)
    requires |stack| < n && NoneOmitted(stack[|stack| - |stack|..])
    ensures DefineArray(v, n, stack) == Error(InternalError)
  {
    assert stack[|stack| - |stack|..] == stack;
    PopEntriesOutcome(stack, n);
  }

  lemma DefineArrayMeetsOmitted(v: Var, n: nat, stack: seq<Entry>, i: nat)
    requires i < n && i < |stack| && stack[|stack| - 1 - i].Omitted?
    ensures DefineArray(v, n, stack) == Error(ArgumentsTypeError)
  {
    var k := if n <= |stack| then n else |stack|;
    assert stack[|stack| - k..][k - i - 1] == stack[|stack| - 1 - i];
    PopEntriesOutcome(stack, n);
  }

  lemma DefineArrayFills(v: Var, n: nat, stack: seq<Entry>, data: seq<real>)
    requires n <= |stack| && NoneOmitted(stack[|stack| - n..]) && |data| == n
    requires forall j :: 0 <= j < n ==> data[j] == Supplied(stack[|stack| - n + j], 0.0)
    ensures DefineArray(v, n, stack) == Ok(Popped(v.(ty := TyArray, items := data), stack[..|stack| - n]))
  {
    PopEntriesOutcome(stack, n);
    assert DefineArray(v, n, stack).value.value.items == data;
  }

  /** `connect_filter`: a kind the filter table cannot construct is an
      error; otherwise the kind's parameter count of entries is popped into
      the filter's arguments from last to first, and the filter is appended
      to the sound's chain. `paramCount` is that table: `None` for a kind
      it cannot construct. */
  function ConnectFilter(sound: Sound, kind: FilterKind, paramCount: FilterKind -> Option<nat>, stack: seq<Entry>)
    : (r: Result<Popped<Sound>>)
    ensures paramCount(kind).None? <==> r == Error(FilterError)
    ensures r.Ok? ==>
      var n := paramCount(kind).value;
      && n <= |stack| && r.value.rest == stack[..|stack| - n]
      && r.value.value.filters == sound.filters + [Filter(kind, stack[|stack| - n..])]
  {
    match paramCount(kind)
    case None => Error(FilterError)
    case Some(n) =>
      var p :- PopEntries(stack, n);
      Ok(Popped(Sound(sound.filters + [Filter(kind, p.value)]), p.rest))
  }

  /** A filter chain only grows by the one filter connected, and the
      connection fails exactly as the counted pop does. */
  lemma ConnectFilterOutcome(sound: Sound, kind: FilterKind, paramCount: FilterKind -> Option<nat>, stack: seq<Entry>)
    requires paramCount(kind).Some?
    ensures var n := paramCount(kind).value;
      && (ConnectFilter(sound, kind, paramCount, stack).Ok? <==> n <= |stack| && NoneOmitted(stack[|stack| - n..]))
      && (ConnectFilter(sound, kind, paramCount, stack).Ok? ==>
            |ConnectFilter(sound, kind, paramCount, stack).value.value.filters| == |sound.filters| + 1)
  {
    PopEntriesOutcome(stack, paramCount(kind).value);
  }
}
