/** Replaying a stored shortcut as synthetic input (src/hotkeys/hotkey_executor.py).

    The `keyboard`, `mouse` and `time` modules are modelled by `InputDevices`, which records every
    call that went through as an `Event`. The spec function `Plan` is the trace a combo asks for;
    `Executed` cuts it at the first call that raises, which is what `ExecuteHotkey` produces. */
module Executor {
  import opened Strings
  import opened Wrappers
  import opened JsonValues

  /** One call into the input modules: `keyboard.press`, `keyboard.release`, `mouse.wheel`, `time.sleep`. */
  datatype Event = Press(key: string) | Release(key: string) | Wheel(delta: int) | Delay(ms: nat)

  /** `time.sleep(0.05)` after each key action, in milliseconds. */
  const KeyDelayMs: nat := 50

  /** `self.mouse_actions`: wheel pseudo-keys and their wheel deltas. */
  const MouseActions: map<string, int> := map["wheelup" := 1, "wheeldown" := -1]

  /** The keyboard, mouse and clock, as the executor sees them. Which key names the keyboard
      library resolves is not visible here: `known` stands for it, and pressing or releasing
      any other name raises. The wheel and the clock never raise. */
  class InputDevices {
    const known: set<string>
    var trace: seq<Event>

    constructor (known: set<string>)
      ensures this.known == known && trace == []
    {
      this.known := known;
      trace := [];
    }

    method Press(key: string) returns (ok: bool)
      modifies this
      ensures ok == Succeeds(Event.Press(key), known)
      ensures trace == if ok then old(trace) + [Event.Press(key)] else old(trace)
    {
      ok := key in known;
      if ok {
        trace := trace + [Event.Press(key)];
      }
    }

    method Release(key: string) returns (ok: bool)
      modifies this
      ensures ok == Succeeds(Event.Release(key), known)
      ensures trace == if ok then old(trace) + [Event.Release(key)] else old(trace)
    {
      ok := key in known;
      if ok {
        trace := trace + [Event.Release(key)];
      }
    }

    method Wheel(delta: int)
      modifies this
      ensures trace == old(trace) + [Event.Wheel(delta)]
    {
      trace := trace + [Event.Wheel(delta)];
    }

    method Sleep(ms: nat)
      modifies this
      ensures trace == old(trace) + [Delay(ms)]
    {
      trace := trace + [Delay(ms)];
    }
  }

  /** Whether the call an event stands for returns normally. */
  predicate Succeeds(e: Event, known: set<string>) {
    match e
    case Press(k) => k in known
    case Release(k) => k in known
    case _ => true
  }

  predicate AllSucceed(s: seq<Event>, known: set<string>) {
    forall i :: 0 <= i < |s| ==> Succeeds(s[i], known)
  }

  function StripAll(parts: seq<string>): (r: seq<string>)
    ensures |r| == |parts|
    ensures forall k :: 0 <= k < |r| ==> r[k] == Strip(parts[k])
  {
    seq(|parts|, k requires 0 <= k < |parts| => Strip(parts[k]))
  }

  /** The key names of a combo: `[key.strip() for key in hotkey.lower().split('+')]`. */
  function Keys(hotkey: string): seq<string>
  {
    StripAll(Split(Lower(hotkey), '+'))
  }

  /** The combo is lower-cased, cut at every `+` and each piece stripped, before any event is produced. */
  lemma KeysShape(hotkey: string)
    ensures |Keys(hotkey)| == |Split(hotkey, '+')| >= 1
    ensures forall k :: 0 <= k < |Keys(hotkey)| ==>
      Stripped(Keys(hotkey)[k]) && NoUpper(Keys(hotkey)[k]) && '+' !in Keys(hotkey)[k]
    ensures Join(Split(Lower(hotkey), '+'), "+") == Lower(hotkey)
  {
    var ps := Split(Lower(hotkey), '+');
    LowerSplit(hotkey);
    LowerNoUpper(hotkey);
    JoinSplit(Lower(hotkey), '+');
    forall k | 0 <= k < |ps| ensures NoUpper(Strip(ps[k])) {
      PieceNoUpper(Lower(hotkey), k);
    }
  }

  lemma {:induction false} PieceNoUpper(s: string, k: nat)
    requires NoUpper(s) && k < |Split(s, '+')|
    ensures NoUpper(Strip(Split(s, '+')[k]))
    decreases |s|
  {
    var p := Split(s, '+')[k];
    PieceChars(s, k);
    StripChars(p);
    forall c | c in Strip(p) ensures !IsUpper(c) {
      assert c in s;
    }
  }

  lemma {:induction false} PieceChars(s: string, k: nat)
    requires k < |Split(s, '+')|
    ensures forall c :: c in Split(s, '+')[k] ==> c in s
    decreases |s|
  {
    if s != [] {
      var rest := Split(s[1..], '+');
      if s[0] == '+' {
        if k > 0 { PieceChars(s[1..], k - 1); }
      } else if k == 0 {
        PieceChars(s[1..], 0);
      } else {
        PieceChars(s[1..], k);
      }
    }
  }

  /** Lower-casing keeps the number of pieces: only letters change, never `+`. */
  lemma {:induction false} LowerSplit(s: string)
    ensures |Split(Lower(s), '+')| == |Split(s, '+')|
    decreases |s|
  {
    if s != [] {
      assert Lower(s)[1..] == Lower(s[1..]);
      LowerSplit(s[1..]);
    }
  }

  /** A combo ending in `++`, such as `"ctrl++"`, is not special-cased: it yields the modifier
      followed by two empty key names. */
  lemma TrailingPlusPlusKeys(w: string)
    requires Stripped(w) && NoUpper(w) && '+' !in w
    ensures Keys(w + "++") == [w, "", ""]
  {
    var h := w + "++";
    assert NoUpper(h) by {
      forall i | 0 <= i < |h| ensures !IsUpper(h[i]) {
        if i < |w| { assert h[i] == w[i]; }
      }
    }
    LowerIdentity(h);
    SplitTrailingPlusPlus(w);
    StripAllEmptyTail(w, "");
  }

  lemma StripAllEmptyTail(w: string, e: string)
    requires Stripped(w) && e == []
    ensures StripAll([w, e, e]) == [w, e, e]
  {
    StripAllIdentity([w, e, e]);
  }

  /** Stripping pieces that are already stripped changes none of them. */
  lemma StripAllIdentity(ps: seq<string>)
    requires forall k :: 0 <= k < |ps| ==> Stripped(ps[k])
    ensures StripAll(ps) == ps
  {
    forall k | 0 <= k < |ps| ensures StripAll(ps)[k] == ps[k] {
      StripIdentity(ps[k]);
    }
  }

  lemma {:induction false} SplitTrailingPlusPlus(w: string)
    requires '+' !in w
    ensures Split(w + "++", '+') == [w, "", ""]
    decreases |w|
  {
    if w == [] {
      assert w + "++" == "++" && "++"[1..] == "+" && "+"[1..] == "";
    } else {
      assert (w + "++")[1..] == w[1..] + "++";
      SplitTrailingPlusPlus(w[1..]);
      assert [w[0]] + w[1..] == w;
    }
  }

  /** Each modifier pressed left to right, each press followed by a delay. */
  function PressAll(mods: seq<string>): (r: seq<Event>)
    ensures |r| == 2 * |mods|
  {
    if mods == [] then [] else [Event.Press(mods[0]), Delay(KeyDelayMs)] + PressAll(mods[1..])
  }

  /** Each modifier released right to left (`reversed(modifiers)`), each release followed by a delay. */
  function ReleaseReversed(mods: seq<string>): (r: seq<Event>)
    ensures |r| == 2 * |mods|
  {
    if mods == [] then [] else ReleaseReversed(mods[1..]) + [Event.Release(mods[0]), Delay(KeyDelayMs)]
  }

  /** What happens between the presses and the releases of the modifiers: one wheel tick and a
      delay for a wheel pseudo-key, otherwise press, delay, release of the final key. */
  function FinalKey(last: string): seq<Event>
  {
    if last in MouseActions then [Event.Wheel(MouseActions[last]), Delay(KeyDelayMs)]
    else [Event.Press(last), Delay(KeyDelayMs), Event.Release(last)]
  }

  /** The calls `execute_hotkey` makes for a list of keys when none of them raises. */
  function Plan(keys: seq<string>): seq<Event>
    requires |keys| >= 1
  {
    PressAll(keys[..|keys| - 1]) + FinalKey(keys[|keys| - 1]) + ReleaseReversed(keys[..|keys| - 1])
  }

  /** The events that actually happen: the plan up to, and not including, the first call that raises. */
  function Executed(plan: seq<Event>, known: set<string>): seq<Event>
  {
    if plan == [] || !Succeeds(plan[0], known) then [] else [plan[0]] + Executed(plan[1..], known)
  }

  /** The whole effect of `execute_hotkey(hotkey_data)`: nothing when `hotkey_data['hotkey'].lower()`
      raises, otherwise the plan of its keys cut at the first failing call. */
  function Outcome(hotkeyData: Json, known: set<string>): seq<Event>
  {
    match GetStr(hotkeyData, "hotkey")
    case None => []
    case Some(h) => Executed(Plan(Keys(h)), known)
  }

  /** `HotkeyExecutor.execute_hotkey`: never raises; the devices see exactly `Outcome`. */
  method ExecuteHotkey(hotkeyData: Json, devices: InputDevices)
    modifies devices
    ensures devices.trace == old(devices.trace) + Outcome(hotkeyData, devices.known)
  {
    var hotkey := GetStr(hotkeyData, "hotkey");
    if hotkey.None? {
      return;
    }
    ReplayKeys(Keys(hotkey.value), devices);
  }

  /** The body of the `try` in `execute_hotkey` once the keys are known: press the modifiers,
      perform the final key, release the modifiers, stopping at the first call that raises. */
  method ReplayKeys(keys: seq<string>, devices: InputDevices)
    requires |keys| >= 1
    modifies devices
    ensures devices.trace == old(devices.trace) + Executed(Plan(keys), devices.known)
  {
    var lastKey := keys[|keys| - 1];
    ghost var t0, known := devices.trace, devices.known;
    ghost var p, f, r := PressAll(keys[..|keys| - 1]), FinalKey(lastKey), ReleaseReversed(keys[..|keys| - 1]);
    assert p + f + r == p + (f + r);
    var modifiers, ok := PressModifiers(keys[..|keys| - 1], devices);
    if !ok {
      ExecutedPrefixFails(p, f + r, known);
      return;
    }
    ExecutedAll(p, known);
    ExecutedAppend(p, f + r, known);
    ok := PerformFinalKey(lastKey, devices);
    if !ok {
      ExecutedPrefixFails(f, r, known);
      assert t0 + p + Executed(f, known) == t0 + (p + Executed(f, known));
      return;
    }
    ExecutedAll(f, known);
    ExecutedAppend(f, r, known);
    ghost var t2 := devices.trace;
    assert t2 == t0 + p + f;
    ok := ReleaseModifiers(modifiers, devices);
    assert t2 + Executed(r, known) == t0 + (p + (f + Executed(r, known)));
  }

  /** Between the presses and the releases: `mouse.wheel(...)` and a delay for a wheel
      pseudo-key, otherwise `keyboard.press`, a delay and `keyboard.release` of the final key. */
  method PerformFinalKey(lastKey: string, devices: InputDevices) returns (ok: bool)
    modifies devices
    ensures ok == AllSucceed(FinalKey(lastKey), devices.known)
    ensures devices.trace == old(devices.trace) + Executed(FinalKey(lastKey), devices.known)
  {
    ghost var known := devices.known;
    ghost var f := FinalKey(lastKey);
    if lastKey in MouseActions {
      devices.Wheel(MouseActions[lastKey]);
      devices.Sleep(KeyDelayMs);
      ExecutedAll(f, known);
      ok := true;
    } else {
      FinalKeyShape(lastKey);
      ok := devices.Press(lastKey);
      if !ok {
        ExecutedFailsAt([], Event.Press(lastKey), [Delay(KeyDelayMs), Event.Release(lastKey)], known);
        return;
      }
      devices.Sleep(KeyDelayMs);
      ok := devices.Release(lastKey);
      if !ok {
        ExecutedFailsAt([Event.Press(lastKey), Delay(KeyDelayMs)], Event.Release(lastKey), [], known);
        return;
      }
      ExecutedAll(f, known);
    }
  }

  lemma FinalKeyShape(last: string)
    requires last !in MouseActions
    ensures FinalKey(last) == [] + ([Event.Press(last)] + [Delay(KeyDelayMs), Event.Release(last)])
    ensures FinalKey(last) == [Event.Press(last), Delay(KeyDelayMs)] + ([Event.Release(last)] + [])
  {
  }

  /** The loop `for key in keys[:-1]: keyboard.press(key); modifiers.append(key); time.sleep(0.05)`.
      `ok` is false when a press raised; `modifiers` then holds the keys pressed before it. */
  method PressModifiers(mods: seq<string>, devices: InputDevices) returns (modifiers: seq<string>, ok: bool)
    modifies devices
    ensures ok == AllSucceed(PressAll(mods), devices.known)
    ensures ok ==> modifiers == mods
    ensures devices.trace == old(devices.trace) + Executed(PressAll(mods), devices.known)
  {
    ghost var t0 := devices.trace;
    ghost var known := devices.known;
    modifiers := [];
    var i := 0;
    while i < |mods|
      invariant 0 <= i <= |mods|
      invariant modifiers == mods[..i]
      invariant devices.trace == t0 + PressAll(mods[..i])
      invariant AllSucceed(PressAll(mods[..i]), known)
    {
      ghost var done, e := PressAll(mods[..i]), Event.Press(mods[i]);
      PressStep(mods, i);
      ok := devices.Press(mods[i]);
      if !ok {
        ExecutedFailsAt(done, e, [Delay(KeyDelayMs)] + PressAll(mods[i + 1..]), known);
        return;
      }
      assert mods[..i + 1] == modifiers + [mods[i]];
      modifiers := modifiers + [mods[i]];
      devices.Sleep(KeyDelayMs);
      assert t0 + done + [e] + [Delay(KeyDelayMs)] == t0 + (done + [e, Delay(KeyDelayMs)]);
      AllSucceedAppend(done, [e, Delay(KeyDelayMs)], known);
      i := i + 1;
    }
    assert mods[..i] == mods;
    ExecutedAll(PressAll(mods), known);
    ok := true;
  }

  /** The loop `for key in reversed(modifiers): keyboard.release(key); time.sleep(0.05)`. */
  method ReleaseModifiers(modifiers: seq<string>, devices: InputDevices) returns (ok: bool)
    modifies devices
    ensures ok == AllSucceed(ReleaseReversed(modifiers), devices.known)
    ensures devices.trace == old(devices.trace) + Executed(ReleaseReversed(modifiers), devices.known)
  {
    ghost var t0 := devices.trace;
    ghost var known := devices.known;
    var j := |modifiers|;
    while j > 0
      invariant 0 <= j <= |modifiers|
      invariant devices.trace == t0 + ReleaseReversed(modifiers[j..])
      invariant AllSucceed(ReleaseReversed(modifiers[j..]), known)
    {
      ghost var done, e := ReleaseReversed(modifiers[j..]), Event.Release(modifiers[j - 1]);
      ReleaseStep(modifiers, j);
      ok := devices.Release(modifiers[j - 1]);
      if !ok {
        ExecutedFailsAt(done, e, [Delay(KeyDelayMs)] + ReleaseReversed(modifiers[..j - 1]), known);
        return;
      }
      devices.Sleep(KeyDelayMs);
      assert t0 + done + [e] + [Delay(KeyDelayMs)] == t0 + (done + [e, Delay(KeyDelayMs)]);
      AllSucceedAppend(done, [e, Delay(KeyDelayMs)], known);
      j := j - 1;
    }
    assert modifiers[0..] == modifiers;
    ExecutedAll(ReleaseReversed(modifiers), known);
    ok := true;
  }

  /** One turn of the press loop: the plan so far grows by a press and a delay, and the whole
      plan is what is done, the current press, and what remains. */
  lemma PressStep(mods: seq<string>, i: nat)
    requires i < |mods|
    ensures PressAll(mods[..i + 1]) == PressAll(mods[..i]) + [Event.Press(mods[i]), Delay(KeyDelayMs)]
    ensures PressAll(mods) == PressAll(mods[..i]) + ([Event.Press(mods[i])] + ([Delay(KeyDelayMs)] + PressAll(mods[i + 1..])))
  {
    PressGrow(mods, i);
    PressSplit(mods, i);
    var b := mods[i..];
    assert b[0] == mods[i] && b[1..] == mods[i + 1..];
    PressAllUnfold(b);
  }

  /** The plan of the modifiers is the plan of a prefix followed by the plan of the rest. */
  lemma PressSplit(mods: seq<string>, i: nat)
    requires i <= |mods|
    ensures PressAll(mods) == PressAll(mods[..i]) + PressAll(mods[i..])
  {
    assert mods[..i] + mods[i..] == mods;
    PressAllAppend(mods[..i], mods[i..]);
  }

  /** The plan of a longer prefix adds one press and one delay. */
  lemma PressGrow(mods: seq<string>, i: nat)
    requires i < |mods|
    ensures PressAll(mods[..i + 1]) == PressAll(mods[..i]) + [Event.Press(mods[i]), Delay(KeyDelayMs)]
  {
    var a := mods[..i];
    assert mods[..i + 1] == a + [mods[i]];
    PressAllAppend(a, [mods[i]]);
    assert PressAll([mods[i]]) == [Event.Press(mods[i]), Delay(KeyDelayMs)];
  }

  lemma PressAllUnfold(s: seq<string>)
    requires s != []
    ensures PressAll(s) == [Event.Press(s[0])] + ([Delay(KeyDelayMs)] + PressAll(s[1..]))
  {
    assert [Event.Press(s[0]), Delay(KeyDelayMs)] + PressAll(s[1..])
        == [Event.Press(s[0])] + ([Delay(KeyDelayMs)] + PressAll(s[1..]));
  }

  /** One turn of the release loop, walking the modifiers from the right. */
  lemma ReleaseStep(modifiers: seq<string>, j: nat)
    requires 0 < j <= |modifiers|
    ensures ReleaseReversed(modifiers[j - 1..])
      == ReleaseReversed(modifiers[j..]) + [Event.Release(modifiers[j - 1]), Delay(KeyDelayMs)]
    ensures ReleaseReversed(modifiers)
      == ReleaseReversed(modifiers[j..]) + ([Event.Release(modifiers[j - 1])] + ([Delay(KeyDelayMs)] + ReleaseReversed(modifiers[..j - 1])))
  {
    ReleaseSplit(modifiers, j - 1);
    assert j - 1 + 1 == j;
    var x, c := ReleaseReversed(modifiers[j..]), ReleaseReversed(modifiers[..j - 1]);
    var r, d := Event.Release(modifiers[j - 1]), Delay(KeyDelayMs);
    Regroup(x, r, d, c);
  }

  /** Re-association of a two-event step, kept apart so that `ReleaseReversed` is not unfolded
      while it is proved. */
  lemma Regroup(x: seq<Event>, r: Event, d: Event, c: seq<Event>)
    ensures (x + [r, d]) + c == x + ([r] + ([d] + c))
  {
    assert [r, d] == [r] + [d];
  }

  lemma ReleaseSplit(modifiers: seq<string>, i: nat)
    requires i < |modifiers|
    ensures ReleaseReversed(modifiers)
      == ReleaseReversed(modifiers[i..]) + ReleaseReversed(modifiers[..i])
    ensures ReleaseReversed(modifiers[i..])
      == ReleaseReversed(modifiers[i + 1..]) + [Event.Release(modifiers[i]), Delay(KeyDelayMs)]
  {
    var b, c := modifiers[i..], modifiers[..i];
    assert c + b == modifiers;
    ReleaseReversedAppend(c, b);
    assert b[0] == modifiers[i] && b[1..] == modifiers[i + 1..];
  }

  // ---------------------------------------------------------------------------------------------
  // Properties of the plan and of the cut at the first failing call

  lemma {:induction false} PressAllAppend(a: seq<string>, b: seq<string>)
    ensures PressAll(a + b) == PressAll(a) + PressAll(b)
    decreases |a|
  {
    if a == [] {
      assert a + b == b;
    } else {
      assert (a + b)[0] == a[0];
      assert (a + b)[1..] == a[1..] + b;
      PressAllAppend(a[1..], b);
    }
  }

  lemma {:induction false} ReleaseReversedAppend(a: seq<string>, b: seq<string>)
    ensures ReleaseReversed(a + b) == ReleaseReversed(b) + ReleaseReversed(a)
    decreases |a|
  {
    if a == [] {
      assert a + b == b;
    } else {
      assert (a + b)[0] == a[0];
      assert (a + b)[1..] == a[1..] + b;
      ReleaseReversedAppend(a[1..], b);
    }
  }

  lemma AllSucceedAppend(a: seq<Event>, b: seq<Event>, known: set<string>)
    requires AllSucceed(a, known) && AllSucceed(b, known)
    ensures AllSucceed(a + b, known)
  {
    forall i | 0 <= i < |a + b| ensures Succeeds((a + b)[i], known) {
      if i >= |a| {
        assert (a + b)[i] == b[i - |a|];
      }
    }
  }

  lemma {:induction false} ExecutedAll(plan: seq<Event>, known: set<string>)
    requires AllSucceed(plan, known)
    ensures Executed(plan, known) == plan
    decreases |plan|
  {
    if plan != [] {
      assert Succeeds(plan[0], known);
      ExecutedAll(plan[1..], known);
    }
  }

  /** A prefix that goes through entirely is kept, and the cut continues in what follows. */
  lemma {:induction false} ExecutedAppend(a: seq<Event>, b: seq<Event>, known: set<string>)
    requires AllSucceed(a, known)
    ensures Executed(a + b, known) == a + Executed(b, known)
    decreases |a|
  {
    if a == [] {
      assert a + b == b;
    } else {
      assert Succeeds(a[0], known);
      assert (a + b)[0] == a[0];
      assert (a + b)[1..] == a[1..] + b;
      ExecutedAppend(a[1..], b, known);
    }
  }

  /** A call that raises after calls that went through: exactly those calls happen, and the
      whole sequence does not go through. */
  lemma ExecutedFailsAt(a: seq<Event>, e: Event, b: seq<Event>, known: set<string>)
    requires AllSucceed(a, known) && !Succeeds(e, known)
    ensures Executed(a + ([e] + b), known) == a
    ensures !AllSucceed(a + ([e] + b), known)
  {
    ExecutedAppend(a, [e] + b, known);
    assert ([e] + b)[0] == e;
    assert (a + ([e] + b))[|a|] == e;
  }

  /** Once a call in `a` raises, nothing of `b` happens. */
  lemma {:induction false} ExecutedPrefixFails(a: seq<Event>, b: seq<Event>, known: set<string>)
    requires !AllSucceed(a, known)
    ensures Executed(a + b, known) == Executed(a, known)
    decreases |a|
  {
    assert a != [];
    assert (a + b)[0] == a[0];
    if Succeeds(a[0], known) {
      assert (a + b)[1..] == a[1..] + b;
      assert !AllSucceed(a[1..], known) by {
        var i :| 0 <= i < |a| && !Succeeds(a[i], known);
        assert a[1..][i - 1] == a[i];
      }
      ExecutedPrefixFails(a[1..], b, known);
    }
  }

  /** What is executed is a prefix of the plan, every call in it went through, and it stops
      only at the end of the plan or just before a call that raises. */
  lemma {:induction false} ExecutedIsCutAtFirstFailure(plan: seq<Event>, known: set<string>)
    ensures |Executed(plan, known)| <= |plan|
    ensures Executed(plan, known) == plan[..|Executed(plan, known)|]
    ensures AllSucceed(Executed(plan, known), known)
    ensures |Executed(plan, known)| < |plan| ==> !Succeeds(plan[|Executed(plan, known)|], known)
    ensures Executed(plan, known) == plan <==> AllSucceed(plan, known)
    decreases |plan|
  {
    if plan != [] && Succeeds(plan[0], known) {
      ExecutedIsCutAtFirstFailure(plan[1..], known);
      var e := Executed(plan[1..], known);
      assert Executed(plan, known) == [plan[0]] + e;
      assert AllSucceed(plan, known) ==> AllSucceed(plan[1..], known) by {
        if AllSucceed(plan, known) {
          forall i | 0 <= i < |plan| - 1 ensures Succeeds(plan[1..][i], known) {
            assert plan[1..][i] == plan[i + 1];
          }
        }
      }
      assert AllSucceed(plan[1..], known) ==> AllSucceed(plan, known) by {
        if AllSucceed(plan[1..], known) {
          forall i | 0 <= i < |plan| ensures Succeeds(plan[i], known) {
            if i > 0 { assert plan[i] == plan[1..][i - 1]; }
          }
        }
      }
      forall i | 0 <= i < |e| + 1 ensures Succeeds(([plan[0]] + e)[i], known) {
        if i > 0 { assert ([plan[0]] + e)[i] == e[i - 1]; }
      }
    }
  }

  lemma {:induction false} PressAllAt(mods: seq<string>, i: nat)
    requires i < |mods|
    ensures PressAll(mods)[2 * i] == Event.Press(mods[i]) && PressAll(mods)[2 * i + 1] == Delay(KeyDelayMs)
    decreases i
  {
    if i > 0 {
      PressAllAt(mods[1..], i - 1);
      assert PressAll(mods)[2 * i] == PressAll(mods[1..])[2 * (i - 1)];
      assert PressAll(mods)[2 * i + 1] == PressAll(mods[1..])[2 * (i - 1) + 1];
    }
  }

  lemma {:induction false} ReleaseReversedAt(mods: seq<string>, j: nat)
    requires j < |mods|
    ensures ReleaseReversed(mods)[2 * j] == Event.Release(mods[|mods| - 1 - j])
    ensures ReleaseReversed(mods)[2 * j + 1] == Delay(KeyDelayMs)
    decreases |mods|
  {
    var rest := ReleaseReversed(mods[1..]);
    assert ReleaseReversed(mods) == rest + [Event.Release(mods[0]), Delay(KeyDelayMs)];
    if j < |mods| - 1 {
      ReleaseReversedAt(mods[1..], j);
      assert mods[1..][|mods| - 2 - j] == mods[|mods| - 1 - j];
    }
  }

  /** The plan opens with a press and a delay per modifier, left to right. */
  lemma PlanPresses(keys: seq<string>)
    requires |keys| >= 1
    ensures forall i :: 0 <= i < |keys| - 1 ==>
      Plan(keys)[2 * i] == Event.Press(keys[i]) && Plan(keys)[2 * i + 1] == Delay(KeyDelayMs)
  {
    var m := |keys| - 1;
    var mods := keys[..m];
    var p := Plan(keys);
    var pa, rest := PressAll(mods), FinalKey(keys[m]) + ReleaseReversed(mods);
    assert p == pa + rest;
    forall i | 0 <= i < m
      ensures p[2 * i] == Event.Press(keys[i]) && p[2 * i + 1] == Delay(KeyDelayMs)
    {
      PressAllAt(mods, i);
      assert p[2 * i] == pa[2 * i] && p[2 * i + 1] == pa[2 * i + 1];
    }
  }

  /** After the presses comes the final key's part. */
  lemma PlanFinal(keys: seq<string>)
    requires |keys| >= 1
    ensures |Plan(keys)| == 4 * (|keys| - 1) + |FinalKey(keys[|keys| - 1])|
    ensures Plan(keys)[2 * (|keys| - 1)..2 * (|keys| - 1) + |FinalKey(keys[|keys| - 1])|] == FinalKey(keys[|keys| - 1])
  {
    var m := |keys| - 1;
    var pa, f, rr := PressAll(keys[..m]), FinalKey(keys[m]), ReleaseReversed(keys[..m]);
    assert Plan(keys) == pa + f + rr;
    assert (pa + f + rr)[|pa|..|pa| + |f|] == f;
  }

  /** The plan closes with a release and a delay per modifier, right to left. */
  lemma PlanReleases(keys: seq<string>)
    requires |keys| >= 1
    ensures forall j :: 0 <= j < |keys| - 1 ==>
      Plan(keys)[2 * (|keys| - 1) + |FinalKey(keys[|keys| - 1])| + 2 * j] == Event.Release(keys[|keys| - 2 - j])
      && Plan(keys)[2 * (|keys| - 1) + |FinalKey(keys[|keys| - 1])| + 2 * j + 1] == Delay(KeyDelayMs)
  {
    var m := |keys| - 1;
    var mods := keys[..m];
    var p := Plan(keys);
    var front, rr := PressAll(mods) + FinalKey(keys[m]), ReleaseReversed(mods);
    assert p == front + rr;
    var n := |front|;
    forall j | 0 <= j < m
      ensures p[n + 2 * j] == Event.Release(keys[m - 1 - j]) && p[n + 2 * j + 1] == Delay(KeyDelayMs)
    {
      ReleaseReversedAt(mods, j);
      assert p[n + 2 * j] == rr[2 * j] && p[n + 2 * j + 1] == rr[2 * j + 1];
    }
  }

  /** Wheel combo: the modifiers are pressed left to right, one wheel tick of +1 (`wheelup`) or
      -1 (`wheeldown`) follows, then the modifiers are released right to left; a delay follows
      every press, the tick and every release. */
  lemma WheelPlan(keys: seq<string>)
    requires |keys| >= 1 && keys[|keys| - 1] in MouseActions
    ensures |Plan(keys)| == 4 * (|keys| - 1) + 2
    ensures forall i :: 0 <= i < |keys| - 1 ==>
      Plan(keys)[2 * i] == Event.Press(keys[i]) && Plan(keys)[2 * i + 1] == Delay(KeyDelayMs)
    ensures Plan(keys)[2 * (|keys| - 1)] == Event.Wheel(if keys[|keys| - 1] == "wheelup" then 1 else -1)
    ensures Plan(keys)[2 * (|keys| - 1) + 1] == Delay(KeyDelayMs)
    ensures forall j :: 0 <= j < |keys| - 1 ==>
      Plan(keys)[2 * (|keys| - 1) + 2 + 2 * j] == Event.Release(keys[|keys| - 2 - j])
      && Plan(keys)[2 * (|keys| - 1) + 3 + 2 * j] == Delay(KeyDelayMs)
  {
    var m, f := |keys| - 1, FinalKey(keys[|keys| - 1]);
    assert |f| == 2 && f[0] == Event.Wheel(if keys[m] == "wheelup" then 1 else -1);
    PlanPresses(keys);
    PlanFinal(keys);
    assert Plan(keys)[2 * m] == Plan(keys)[2 * m..2 * m + 2][0];
    assert Plan(keys)[2 * m + 1] == Plan(keys)[2 * m..2 * m + 2][1];
    PlanReleases(keys);
  }

  /** Key combo: the modifiers are pressed left to right, then the final key is pressed, a delay,
      the final key is released, then the modifiers are released right to left; a delay follows
      every modifier press and every modifier release, but not the final key's release. */
  lemma KeyPlan(keys: seq<string>)
    requires |keys| >= 1 && keys[|keys| - 1] !in MouseActions
    ensures |Plan(keys)| == 4 * (|keys| - 1) + 3
    ensures forall i :: 0 <= i < |keys| - 1 ==>
      Plan(keys)[2 * i] == Event.Press(keys[i]) && Plan(keys)[2 * i + 1] == Delay(KeyDelayMs)
    ensures Plan(keys)[2 * (|keys| - 1)] == Event.Press(keys[|keys| - 1])
    ensures Plan(keys)[2 * (|keys| - 1) + 1] == Delay(KeyDelayMs)
    ensures Plan(keys)[2 * (|keys| - 1) + 2] == Event.Release(keys[|keys| - 1])
    ensures forall j :: 0 <= j < |keys| - 1 ==>
      Plan(keys)[2 * (|keys| - 1) + 3 + 2 * j] == Event.Release(keys[|keys| - 2 - j])
      && Plan(keys)[2 * (|keys| - 1) + 4 + 2 * j] == Delay(KeyDelayMs)
  {
    var m, f := |keys| - 1, FinalKey(keys[|keys| - 1]);
    assert |f| == 3;
    PlanPresses(keys);
    PlanFinal(keys);
    assert Plan(keys)[2 * m] == Plan(keys)[2 * m..2 * m + 3][0];
    assert Plan(keys)[2 * m + 1] == Plan(keys)[2 * m..2 * m + 3][1];
    assert Plan(keys)[2 * m + 2] == Plan(keys)[2 * m..2 * m + 3][2];
    PlanReleases(keys);
  }

  /** A lone key is pressed, held for one delay and released; a lone wheel token is one tick. */
  lemma SingleTokenPlan(k: string)
    ensures k !in MouseActions ==> Plan([k]) == [Event.Press(k), Delay(KeyDelayMs), Event.Release(k)]
    ensures k in MouseActions ==> Plan([k]) == [Event.Wheel(MouseActions[k]), Delay(KeyDelayMs)]
  {
    assert [k][..0] == [];
  }

  /** The keys of the `Press` events of a trace, in order. */
  function Pressed(t: seq<Event>): seq<string>
  {
    if t == [] then [] else (if t[0].Press? then [t[0].key] else []) + Pressed(t[1..])
  }

  /** The keys of the `Release` events of a trace, in order. */
  function Released(t: seq<Event>): seq<string>
  {
    if t == [] then [] else (if t[0].Release? then [t[0].key] else []) + Released(t[1..])
  }

  function Reverse(s: seq<string>): (r: seq<string>)
    ensures |r| == |s|
  {
    if s == [] then [] else Reverse(s[1..]) + [s[0]]
  }

  lemma {:induction false} PressedAppend(a: seq<Event>, b: seq<Event>)
    ensures Pressed(a + b) == Pressed(a) + Pressed(b)
    ensures Released(a + b) == Released(a) + Released(b)
    decreases |a|
  {
    if a == [] {
      assert a + b == b;
    } else {
      assert (a + b)[0] == a[0];
      assert (a + b)[1..] == a[1..] + b;
      PressedAppend(a[1..], b);
    }
  }

  lemma {:induction false} PressAllKeys(mods: seq<string>)
    ensures Pressed(PressAll(mods)) == mods
    ensures Released(PressAll(mods)) == []
    decreases |mods|
  {
    if mods != [] {
      PressAllKeys(mods[1..]);
      var head := [Event.Press(mods[0]), Delay(KeyDelayMs)];
      PairKeys(Event.Press(mods[0]));
      PressedAppend(head, PressAll(mods[1..]));
    }
  }

  lemma {:induction false} ReleaseReversedKeys(mods: seq<string>)
    ensures Pressed(ReleaseReversed(mods)) == []
    ensures Released(ReleaseReversed(mods)) == Reverse(mods)
    decreases |mods|
  {
    if mods != [] {
      ReleaseReversedKeys(mods[1..]);
      var tail := [Event.Release(mods[0]), Delay(KeyDelayMs)];
      PairKeys(Event.Release(mods[0]));
      PressedAppend(ReleaseReversed(mods[1..]), tail);
    }
  }

  lemma PressedCons(e: Event, t: seq<Event>)
    ensures Pressed([e] + t) == (if e.Press? then [e.key] else []) + Pressed(t)
    ensures Released([e] + t) == (if e.Release? then [e.key] else []) + Released(t)
  {
    assert ([e] + t)[0] == e && ([e] + t)[1..] == t;
  }

  /** An event followed by a delay presses or releases at most that event's key. */
  lemma PairKeys(e: Event)
    ensures Pressed([e, Delay(KeyDelayMs)]) == (if e.Press? then [e.key] else [])
    ensures Released([e, Delay(KeyDelayMs)]) == (if e.Release? then [e.key] else [])
  {
    PressedCons(Delay(KeyDelayMs), []);
    PressedCons(e, [Delay(KeyDelayMs)]);
    assert [e] + [Delay(KeyDelayMs)] == [e, Delay(KeyDelayMs)];
  }

  lemma FinalKeyKeys(last: string)
    ensures Pressed(FinalKey(last)) == (if last in MouseActions then [] else [last])
    ensures Released(FinalKey(last)) == (if last in MouseActions then [] else [last])
  {
    if last in MouseActions {
      PairKeys(Event.Wheel(MouseActions[last]));
    } else {
      PressedCons(Event.Release(last), []);
      PressedCons(Delay(KeyDelayMs), [Event.Release(last)]);
      PressedCons(Event.Press(last), [Delay(KeyDelayMs), Event.Release(last)]);
      assert [Event.Press(last)] + [Delay(KeyDelayMs), Event.Release(last)] == FinalKey(last);
      assert [Delay(KeyDelayMs)] + [Event.Release(last)] == [Delay(KeyDelayMs), Event.Release(last)];
      assert [Event.Release(last)] + [] == [Event.Release(last)];
    }
  }

  lemma {:induction false} ReverseAppend(a: seq<string>, b: seq<string>)
    ensures Reverse(a + b) == Reverse(b) + Reverse(a)
    decreases |a|
  {
    if a == [] {
      assert a + b == b;
    } else {
      assert (a + b)[0] == a[0];
      assert (a + b)[1..] == a[1..] + b;
      ReverseAppend(a[1..], b);
    }
  }

  /** The key the last element of a combination presses and releases: none for a wheel action. */
  function LastKeys(last: string): seq<string> {
    if last in MouseActions then [] else [last]
  }

  /** The plan presses the modifiers in order and then the last key; it releases the last key
      and then the modifiers in reverse order. */
  lemma PlanKeys(keys: seq<string>)
    requires |keys| >= 1
    ensures Pressed(Plan(keys)) == keys[..|keys| - 1] + LastKeys(keys[|keys| - 1])
    ensures Released(Plan(keys)) == LastKeys(keys[|keys| - 1]) + Reverse(keys[..|keys| - 1])
  {
    var mods, last := keys[..|keys| - 1], keys[|keys| - 1];
    var pa, f, rr := PressAll(mods), FinalKey(last), ReleaseReversed(mods);
    assert Plan(keys) == pa + f + rr;
    PressAllKeys(mods);
    ReleaseReversedKeys(mods);
    FinalKeyKeys(last);
    PressedAppend(pa, f);
    PressedAppend(pa + f, rr);
  }

  /** Every key the plan presses it releases exactly once, in the reverse order of the presses. */
  lemma ReleasesMirrorPresses(keys: seq<string>)
    requires |keys| >= 1
    ensures Released(Plan(keys)) == Reverse(Pressed(Plan(keys)))
    ensures multiset(Released(Plan(keys))) == multiset(Pressed(Plan(keys)))
  {
    var mods, lastKeys := keys[..|keys| - 1], LastKeys(keys[|keys| - 1]);
    PlanKeys(keys);
    ReverseAppend(mods, lastKeys);
    assert Reverse(lastKeys) == lastKeys by {
      if lastKeys != [] {
        assert lastKeys[1..] == [];
      }
    }
    ReverseMultiset(Pressed(Plan(keys)));
  }

  lemma {:induction false} ReverseMultiset(s: seq<string>)
    ensures multiset(Reverse(s)) == multiset(s)
    decreases |s|
  {
    if s != [] {
      ReverseMultiset(s[1..]);
      assert s == [s[0]] + s[1..];
    }
  }

  /** `"ctrl++"` as written: `ctrl` is pressed, pressing the empty key name raises, and the
      handler returns with `ctrl` still held. The same holds for any modifier `w` in place of `ctrl`. */
  lemma TrailingPlusPlusLeavesModifierHeld(w: string, known: set<string>)
    requires Stripped(w) && NoUpper(w) && '+' !in w
    requires w in known && "" !in known
    ensures Outcome(JObject(map["hotkey" := JStr(w + "++")]), known) == [Event.Press(w), Delay(KeyDelayMs)]
  {
    TrailingPlusPlusKeys(w);
    PressFailsOnEmptyKey(w, "", known);
    assert GetStr(JObject(map["hotkey" := JStr(w + "++")]), "hotkey") == Some(w + "++");
  }

  lemma PressFailsOnEmptyKey(w: string, e: string, known: set<string>)
    requires w in known && e !in known
    ensures Executed(Plan([w, e, e]), known) == [Event.Press(w), Delay(KeyDelayMs)]
  {
    var keys := [w, e, e];
    var mods := keys[..2];
    assert mods == [w] + [e];
    PressAllAppend([w], [e]);
    var head := [Event.Press(w), Delay(KeyDelayMs)];
    assert PressAll([w]) == head;
    assert PressAll([e]) == [Event.Press(e)] + [Delay(KeyDelayMs)];
    var rest := [Delay(KeyDelayMs)] + FinalKey(e) + ReleaseReversed(mods);
    assert Plan(keys) == head + ([Event.Press(e)] + rest);
    assert AllSucceed(head, known);
    ExecutedFailsAt(head, Event.Press(e), rest, known);
  }

  /** An entry without a string `hotkey` produces no input at all. */
  lemma NoHotkeyNoInput(hotkeyData: Json, known: set<string>)
    requires GetStr(hotkeyData, "hotkey").None?
    ensures Outcome(hotkeyData, known) == []
  {
  }
}
