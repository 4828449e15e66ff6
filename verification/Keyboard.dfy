/**
 The keyboard of `ker/kb.c`: scan codes go from the interrupt handler through a ring to `kb_read`, which
 decodes them with the shift and caps-lock state. The ring and the flags are updated in place.
 */
module Keyboard {
  import opened Rings
  import opened Sequences

  const NUMLOCK: nat := 0x45
  const SCROLLLOCK: nat := 0x46
  const CAPSLOCK: nat := 0x3A
  const LSHIFT: nat := 0x2A
  const RSHIFT: nat := 0x36

  /** Rows of the key map. */
  const ROWS: nat := 94

  /** The first two columns of the key map: without and with shift. */
  datatype Key = Key(plain: nat, shifted: nat)

  datatype Modifiers = Modifiers(shift: bool, capslock: bool, scrolllock: bool, numlock: bool)

  const OFF := Modifiers(false, false, false, false)

  // ---------- decoding ----------

  /** `status_process`; the top bit of a code means release. */
  function Process(m: Modifiers, code: nat): Modifiers {
    var press, key := code < 0x80, code % 0x80;
    if key == CAPSLOCK then m.(capslock := !m.capslock)
    else if key == NUMLOCK then m.(numlock := !m.numlock)
    else if key == SCROLLLOCK then m.(scrolllock := !m.scrolllock)
    else if key == LSHIFT || key == RSHIFT then m.(shift := press)
    else m
  }

  /** What `kb_read` returns for a code, once the modifiers are updated. */
  function Char(keymap: seq<Key>, m: Modifiers, code: nat): nat
    requires |keymap| == ROWS && code % 0x80 < ROWS
  {
    if code >= 0x80 then 0
    else if m.shift != m.capslock then keymap[code].shifted
    else keymap[code].plain
  }

  predicate Codes(cs: seq<nat>) {
    forall i :: 0 <= i < |cs| ==> cs[i] < 0x100 && cs[i] % 0x80 < ROWS
  }

  /** The decoder as a fold over a sequence of codes. */
  function Decode(keymap: seq<Key>, m: Modifiers, cs: seq<nat>): (Modifiers, seq<nat>)
    requires |keymap| == ROWS && Codes(cs)
    decreases |cs|
  {
    if cs == [] then (m, [])
    else
      var m' := Process(m, cs[0]);
      var (m'', out) := Decode(keymap, m', cs[1..]);
      (m'', [Char(keymap, m', cs[0])] + out)
  }

  // ---------- what the codes mean ----------

  /** The last code of a shift key is a press. */
  ghost predicate ShiftHeld(cs: seq<nat>) {
    exists j :: 0 <= j < |cs| && (cs[j] == 0x2A || cs[j] == 0x36) && NoShiftBehind(cs, j)
  }

  ghost predicate NoShiftBehind(cs: seq<nat>, j: nat) {
    forall k :: j < k < |cs| ==> cs[k] != 0x2A && cs[k] != 0x36 && cs[k] != 0xAA && cs[k] != 0xB6
  }

  /** How often a lock key occurs, for the code of its press; releases of it count, too, if they get here. */
  function Times(cs: seq<nat>, key: nat): nat {
    if cs == [] then 0 else Times(cs[..|cs| - 1], key) + if cs[|cs| - 1] % 0x80 == key then 1 else 0
  }

  /** The modifiers behind some codes, said about the codes alone. */
  ghost predicate ModifiersOf(m: Modifiers, cs: seq<nat>) {
    && (m.shift <==> ShiftHeld(cs))
    && (m.capslock <==> Times(cs, 0x3A) % 2 == 1)
    && (m.numlock <==> Times(cs, 0x45) % 2 == 1)
    && (m.scrolllock <==> Times(cs, 0x46) % 2 == 1)
  }

  /**
   The character for the last of some codes: nothing for a release; otherwise the shifted column of its key
   if either shift is held or caps lock is on, but not both, and the plain one if not.
   */
  ghost function Meant(keymap: seq<Key>, cs: seq<nat>): nat
    requires |keymap| == ROWS && cs != [] && Codes(cs)
  {
    var c := cs[|cs| - 1];
    if c >= 0x80 then 0
    else if ShiftHeld(cs) != (Times(cs, 0x3A) % 2 == 1) then keymap[c].shifted
    else keymap[c].plain
  }

  lemma ProcessIsMeant(m: Modifiers, cs: seq<nat>, c: nat)
    requires ModifiersOf(m, cs) && c < 0x100
    ensures ModifiersOf(Process(m, c), cs + [c])
  {
    var ds := cs + [c];
    assert ds[..|ds| - 1] == cs;
    ShiftSnoc(cs, c);
  }

  lemma ShiftSnoc(cs: seq<nat>, c: nat)
    ensures ShiftHeld(cs + [c]) <==>
              if c == 0x2A || c == 0x36 then true else if c == 0xAA || c == 0xB6 then false else ShiftHeld(cs)
  {
    var ds, n := cs + [c], |cs|;
    if c == 0x2A || c == 0x36 {
      assert ds[n] == c && NoShiftBehind(ds, n);
    } else if c != 0xAA && c != 0xB6 {
      if ShiftHeld(cs) {
        var j :| 0 <= j < n && (cs[j] == 0x2A || cs[j] == 0x36) && NoShiftBehind(cs, j);
        assert ds[j] == cs[j] && NoShiftBehind(ds, j);
      }
      if ShiftHeld(ds) {
        var j :| 0 <= j < |ds| && (ds[j] == 0x2A || ds[j] == 0x36) && NoShiftBehind(ds, j);
        assert forall k :: 0 <= k < n ==> ds[k] == cs[k];
        assert j < n && cs[j] == ds[j] && NoShiftBehind(cs, j);
      }
    }
  }

  /** The decoder does what the codes mean. */
  lemma {:induction false} DecodeIsMeant(keymap: seq<Key>, cs: seq<nat>)
    requires |keymap| == ROWS && Codes(cs)
    ensures ModifiersOf(Decode(keymap, OFF, cs).0, cs)
    ensures var out := Decode(keymap, OFF, cs).1;
            |out| == |cs| && forall i :: 0 <= i < |cs| ==> out[i] == Meant(keymap, cs[..i + 1])
    decreases |cs|
  {
    if cs != [] {
      var n := |cs| - 1;
      var front := cs[..n];
      assert cs == front + [cs[n]];
      DecodeIsMeant(keymap, front);
      DecodeSnoc(keymap, OFF, front, cs[n]);
      ProcessIsMeant(Decode(keymap, OFF, front).0, front, cs[n]);
      assert cs[..n + 1] == cs;
      forall i | 0 <= i < n
        ensures Decode(keymap, OFF, cs).1[i] == Meant(keymap, cs[..i + 1])
      {
        assert front[..i + 1] == cs[..i + 1];
      }
    }
  }

  /** Decoding one code more. */
  lemma {:induction false} DecodeSnoc(keymap: seq<Key>, m: Modifiers, cs: seq<nat>, c: nat)
    requires |keymap| == ROWS && Codes(cs) && c < 0x100 && c % 0x80 < ROWS
    ensures Codes(cs + [c])
    ensures var (m', out) := Decode(keymap, m, cs);
            Decode(keymap, m, cs + [c]) == (Process(m', c), out + [Char(keymap, Process(m', c), c)])
    decreases |cs|
  {
    if cs == [] {
      assert cs + [c] == [c] && [c][1..] == [];
      assert Decode(keymap, Process(m, c), [c][1..]) == (Process(m, c), []);
      var x := Char(keymap, Process(m, c), c);
      assert [x] + [] == [] + [x];
    } else {
      assert (cs + [c])[1..] == cs[1..] + [c];
      var m1 := Process(m, cs[0]);
      DecodeSnoc(keymap, m1, cs[1..], c);
      var (m2, rest) := Decode(keymap, m1, cs[1..]);
      var x, y := Char(keymap, m1, cs[0]), Char(keymap, Process(m2, c), c);
      assert ([x] + rest) + [y] == [x] + (rest + [y]);
    }
  }

  // ---------- the ring ----------

  /** The keyboard state; `accepted` are the codes put into the ring so far, `returned` the characters read. */
  datatype State = State(ring: seq<nat>, head: nat, tail: nat, count: nat, mods: Modifiers,
                         accepted: seq<nat>, returned: seq<nat>)

  /** The handler skips the release of the three lock keys. */
  predicate Skipped(code: nat): (r: bool)
    ensures code < 0x100 ==> (r <==> code in {0xBA, 0xC5, 0xC6})
  {
    code >= 0x80 && (code % 0x80 == CAPSLOCK || code % 0x80 == SCROLLLOCK || code % 0x80 == NUMLOCK)
  }

  predicate Shape(s: State) {
    0 < |s.ring| && s.head < |s.ring| && s.tail < |s.ring| && s.count <= |s.ring|
  }

  /** `kbd_int` with the last code read from the controller. */
  function Interrupt(s: State, code: nat): State
    requires Shape(s)
  {
    if Skipped(code) || s.count == |s.ring| then s
    else s.(ring := s.ring[s.head := code], head := Next(s.head, |s.ring|), count := s.count + 1,
            accepted := s.accepted + [code])
  }

  /** `kb_read` once the ring holds a code; before that the caller sleeps. */
  function Read(keymap: seq<Key>, s: State): State
    requires Shape(s) && |keymap| == ROWS && s.ring[s.tail] % 0x80 < ROWS
  {
    if s.count == 0 then s
    else
      var code := s.ring[s.tail];
      var m := Process(s.mods, code);
      s.(tail := Next(s.tail, |s.ring|), count := s.count - 1, mods := m, returned := s.returned + [Char(keymap, m, code)])
  }

  /** The codes in the ring, oldest first. */
  function Queued(s: State): seq<nat>
    requires Shape(s)
  {
    Window(s.ring, s.tail, s.count)
  }

  predicate Inv(keymap: seq<Key>, s: State) {
    && |keymap| == ROWS && Shape(s)
    && s.head == Wrap(s.tail + s.count, |s.ring|)
    && Codes(s.ring) && Codes(s.accepted)
    && (forall i :: 0 <= i < |s.accepted| ==> s.accepted[i] !in {0xBA, 0xC5, 0xC6})
    && |s.accepted| == |s.returned| + s.count
    && s.accepted[|s.returned|..] == Queued(s)
    && Decoded(keymap, s)
  }

  /** What has been read is the decoding of the oldest accepted codes. */
  predicate Decoded(keymap: seq<Key>, s: State)
    requires |keymap| == ROWS && Codes(s.accepted) && |s.returned| <= |s.accepted|
  {
    Decode(keymap, OFF, s.accepted[..|s.returned|]) == (s.mods, s.returned)
  }

  lemma InterruptKeeps(keymap: seq<Key>, s: State, code: nat)
    requires Inv(keymap, s) && code < 0x100 && code % 0x80 < ROWS
    ensures Inv(keymap, Interrupt(s, code))
  {
    var t := Interrupt(s, code);
    if t != s {
      WindowPut(s.ring, s.tail, s.count, code);
      assert t.accepted[|t.returned|..] == s.accepted[|s.returned|..] + [code];
      assert t.accepted[..|t.returned|] == s.accepted[..|s.returned|];
    }
  }

  lemma ReadKeeps(keymap: seq<Key>, s: State)
    requires Inv(keymap, s)
    ensures Inv(keymap, Read(keymap, s))
  {
    if s.count > 0 {
      var t, code, n := Read(keymap, s), s.ring[s.tail], |s.returned|;
      WindowGet(s.ring, s.tail, s.count);
      assert Queued(s)[0] == code && s.accepted[n..][0] == s.accepted[n];
      DecodeSnoc(keymap, OFF, s.accepted[..n], code);
      assert s.accepted[..n + 1] == s.accepted[..n] + [code];
      assert s.accepted[n + 1..] == s.accepted[n..][1..];
    }
  }

  // ---------- every interleaving ----------

  /** An interrupt, with the codes the controller holds by then, or a read. */
  datatype Event = Keys(codes: seq<nat>) | Reader

  predicate Events(es: seq<Event>) {
    forall i :: 0 <= i < |es| ==> Legal(es[i])
  }

  predicate Legal(e: Event) {
    e.Keys? ==> e.codes != [] && Codes(e.codes)
  }

  function Step(keymap: seq<Key>, s: State, e: Event): State
    requires Inv(keymap, s) && Legal(e)
  {
    match e
    case Keys(cs) => Interrupt(s, cs[|cs| - 1])
    case Reader => Read(keymap, s)
  }

  lemma StepKeeps(keymap: seq<Key>, s: State, e: Event)
    requires Inv(keymap, s) && Legal(e)
    ensures Inv(keymap, Step(keymap, s, e)) && |Step(keymap, s, e).ring| == |s.ring|
  {
    match e {
      case Keys(cs) => InterruptKeeps(keymap, s, cs[|cs| - 1]);
      case Reader => ReadKeeps(keymap, s);
    }
  }

  function Run(keymap: seq<Key>, s: State, es: seq<Event>): State
    requires Inv(keymap, s) && Events(es)
    decreases |es|
  {
    if es == [] then s
    else
      StepKeeps(keymap, s, es[0]);
      Run(keymap, Step(keymap, s, es[0]), es[1..])
  }

  /** The codes that are not skipped. */
  function Wanted(cs: seq<nat>): seq<nat> {
    if cs == [] then []
    else Wanted(cs[..|cs| - 1]) + if Skipped(cs[|cs| - 1]) then [] else [cs[|cs| - 1]]
  }

  function Offered(es: seq<Event>): seq<nat> {
    if es == [] then [] else (if es[0].Keys? then Wanted(es[0].codes) else []) + Offered(es[1..])
  }

  lemma {:induction false} RunKeeps(keymap: seq<Key>, s: State, es: seq<Event>)
    requires Inv(keymap, s) && Events(es)
    ensures Inv(keymap, Run(keymap, s, es)) && |Run(keymap, s, es).ring| == |s.ring|
    decreases |es|
  {
    if es != [] {
      StepKeeps(keymap, s, es[0]);
      RunKeeps(keymap, Step(keymap, s, es[0]), es[1..]);
    }
  }

  /**
   For every interleaving of interrupts and reads from `kb_init` on: the i-th character read is what the
   first i codes accepted mean, no accepted code is the release of a lock key, and at most one ring of codes
   is still to be read.
   */
  lemma KeysAreDecoded(keymap: seq<Key>, ring: seq<nat>, es: seq<Event>)
    requires |keymap| == ROWS && ring != [] && Codes(ring) && Events(es)
    ensures Inv(keymap, State(ring, 0, 0, 0, OFF, [], []))
    ensures var s := Run(keymap, State(ring, 0, 0, 0, OFF, [], []), es);
            && |s.returned| <= |s.accepted| <= |s.returned| + |ring|
            && Codes(s.accepted)
            && (forall i :: 0 <= i < |s.returned| ==> s.returned[i] == Meant(keymap, s.accepted[..i + 1]))
            && (forall i :: 0 <= i < |s.accepted| ==> s.accepted[i] !in {0xBA, 0xC5, 0xC6})
  {
    RunKeeps(keymap, State(ring, 0, 0, 0, OFF, [], []), es);
    ReturnedIsMeant(keymap, Run(keymap, State(ring, 0, 0, 0, OFF, [], []), es));
  }

  lemma ReturnedIsMeant(keymap: seq<Key>, s: State)
    requires Inv(keymap, s)
    ensures forall i :: 0 <= i < |s.returned| ==> s.returned[i] == Meant(keymap, s.accepted[..i + 1])
    ensures var n := |s.returned|; n > 0 ==> s.returned[n - 1] == Meant(keymap, s.accepted[..n])
  {
    var read := s.accepted[..|s.returned|];
    DecodeIsMeant(keymap, read);
    forall i | 0 <= i < |s.returned|
      ensures s.returned[i] == Meant(keymap, s.accepted[..i + 1])
    {
      assert read[..i + 1] == s.accepted[..i + 1];
    }
    assert |s.returned| > 0 ==> s.returned[|s.returned| - 1] == Meant(keymap, s.accepted[..|s.returned| - 1 + 1]);
  }

  /** The handler reads a wanted code over before it has looked at it, or has one while the ring is full. */
  predicate Loses(s: State, e: Event) {
    e.Keys? && e.codes != [] &&
    (Wanted(e.codes[..|e.codes| - 1]) != [] || (!Skipped(e.codes[|e.codes| - 1]) && s.count == |s.ring|))
  }

  predicate LosesSome(keymap: seq<Key>, s: State, es: seq<Event>)
    requires Inv(keymap, s) && Events(es)
    decreases |es|
  {
    if es == [] then false
    else
      StepKeeps(keymap, s, es[0]);
      Loses(s, es[0]) || LosesSome(keymap, Step(keymap, s, es[0]), es[1..])
  }

  lemma StepAccepts(keymap: seq<Key>, s: State, es: seq<Event>)
    requires Inv(keymap, s) && Events(es) && es != []
    ensures var t := Step(keymap, s, es[0]);
            if Loses(s, es[0]) then |t.accepted| + |Offered(es[1..])| < |s.accepted| + |Offered(es)|
            else t.accepted + Offered(es[1..]) == s.accepted + Offered(es)
  {
    var rest := Offered(es[1..]);
    if es[0].Keys? {
      var last := es[0].codes[|es[0].codes| - 1];
      var w, tail := Wanted(es[0].codes[..|es[0].codes| - 1]), if Skipped(last) then [] else [last];
      assert Offered(es) == (w + tail) + rest;
      if Loses(s, es[0]) {
        assert |Offered(es)| == |w| + |tail| + |rest|;
      } else {
        assert (w + tail) == tail && tail + rest == (if Skipped(last) then rest else [last] + rest);
        MoveFirst(s.accepted, last, rest);
      }
    } else {
      assert [] + rest == rest;
    }
  }

  lemma {:induction false} AcceptedLength(keymap: seq<Key>, s: State, es: seq<Event>)
    requires Inv(keymap, s) && Events(es)
    ensures |Run(keymap, s, es).accepted| <= |s.accepted| + |Offered(es)|
    decreases |es|
  {
    if es != [] {
      StepKeeps(keymap, s, es[0]);
      var t := Step(keymap, s, es[0]);
      StepAccepts(keymap, s, es);
      AcceptedLength(keymap, t, es[1..]);
      assert !Loses(s, es[0]) ==> |t.accepted + Offered(es[1..])| == |s.accepted + Offered(es)|;
    }
  }

  /**
   Every wanted code gets through, in order, exactly when none meets a full ring and none is followed by
   another one within the same interrupt.
   */
  lemma {:induction false} NothingLostIff(keymap: seq<Key>, s: State, es: seq<Event>)
    requires Inv(keymap, s) && Events(es)
    ensures Run(keymap, s, es).accepted == s.accepted + Offered(es) <==> !LosesSome(keymap, s, es)
    decreases |es|
  {
    if es == [] {
      assert s.accepted + [] == s.accepted;
    } else {
      StepKeeps(keymap, s, es[0]);
      var t := Step(keymap, s, es[0]);
      StepAccepts(keymap, s, es);
      if Loses(s, es[0]) {
        AcceptedLength(keymap, t, es[1..]);
      } else {
        NothingLostIff(keymap, t, es[1..]);
      }
    }
  }

  /** The losing input: press and release of one key arrive together, and the press is gone. */
  lemma PressIsLostExample(keymap: seq<Key>)
    requires |keymap| == ROWS
    ensures var s, es := State([0], 0, 0, 0, OFF, [], []), [Keys([0x1E, 0x9E])];
            && Inv(keymap, s) && Events(es) && Offered(es) == [0x1E, 0x9E] && Run(keymap, s, es).accepted == [0x9E]
  {
    var s, es := State([0], 0, 0, 0, OFF, [], []), [Keys([0x1E, 0x9E])];
    assert [0x1E, 0x9E][..1] == [0x1E] && [0x1E][..0] == [];
    assert Wanted([0x1E]) == [] + [0x1E] && Wanted([0x1E, 0x9E]) == [0x1E] + [0x9E];
    StepKeeps(keymap, s, es[0]);
    assert es[1..] == [] && Offered(es) == [0x1E, 0x9E] + [];
    assert Run(keymap, s, es) == Step(keymap, s, es[0]);
    assert [] + [0x9E] == [0x9E];
  }

  // ---------- the methods ----------

  class Keyboard {
    const buf: array<nat>
    const keymap: seq<Key>
    var head: nat
    var tail: nat
    var count: nat
    var mods: Modifiers
    ghost var accepted: seq<nat>
    ghost var returned: seq<nat>

    ghost function Abs(): State
      reads this, buf
    {
      State(buf[..], head, tail, count, mods, accepted, returned)
    }

    ghost predicate Valid()
      reads this, buf
    {
      Inv(keymap, Abs())
    }

    /** `kb_init`. */
    constructor (size: nat, keymap: seq<Key>)
      requires size > 0 && |keymap| == ROWS
      ensures Valid() && fresh(buf) && Abs() == State(buf[..], 0, 0, 0, OFF, [], []) && |buf[..]| == size
    {
      buf := new nat[size](_ => 0);
      this.keymap := keymap;
      head, tail, count, mods, accepted, returned := 0, 0, 0, OFF, [], [];
    }

    /** `kbd_int` while the controller holds `codes`; the result says whether the readers are woken. */
    method KbdInt(codes: seq<nat>) returns (wake: bool)
      requires Valid() && codes != [] && Codes(codes)
      modifies buf, this`head, this`count, this`accepted
      ensures Valid() && Abs() == Interrupt(old(Abs()), codes[|codes| - 1])
      ensures wake <==> !Skipped(codes[|codes| - 1])
    {
      var code, i := codes[0], 1;
      while i < |codes|
        invariant 1 <= i <= |codes| && code == codes[i - 1]
      {
        code := codes[i];
        i := i + 1;
      }
      InterruptKeeps(keymap, Abs(), code);
      if code >= 0x80 {
        var km := code % 0x80;
        if km == CAPSLOCK || km == SCROLLLOCK || km == NUMLOCK { return false; }
      }
      if count < buf.Length {
        ghost var ring := buf[..];
        buf[head] := code;
        assert buf[..] == ring[head := code];
        head := head + 1;
        if head == buf.Length {
          head := 0;
        }
        count := count + 1;
        accepted := accepted + [code];
      }
      return true;
    }

    /** One round of `kb_read`: without a code in the ring the caller goes to sleep (`ok` is false). */
    method KbRead() returns (ok: bool, c: nat)
      requires Valid()
      modifies this`tail, this`count, this`mods, this`returned
      ensures Valid() && Abs() == Read(keymap, old(Abs()))
      ensures ok <==> old(count) > 0
      ensures returned == old(returned) + if ok then [c] else []
      ensures ok ==> |returned| <= |accepted| && c == Meant(keymap, accepted[..|returned|])
    {
      ReadKeeps(keymap, Abs());
      ghost var t := Read(keymap, Abs());
      ReturnedIsMeant(keymap, t);
      if count == 0 {
        return false, 0;
      }
      var code := buf[tail];
      tail := tail + 1;
      if tail == buf.Length {
        tail := 0;
      }
      count := count - 1;
      mods := Process(mods, code);
      c := Char(keymap, mods, code);
      returned := returned + [c];
      ok := true;
      assert Abs() == t;
    }
  }
}
