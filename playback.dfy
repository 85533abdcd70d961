/**
 * The symbol loop of `playMorse`: GPIO writes become entries of a trace,
 * each with the time the thread sleeps after it, and the cross-thread
 * stop flag becomes an input giving its value before each symbol.
 */
module Playback {
  import Morse

  /** `GPIO.LOW` and `GPIO.HIGH`. */
  datatype Level = Low | High

  /** One `GPIO.output(pin, level)` call followed by a sleep of `holdMs` milliseconds. */
  datatype Write = Write(pin: int, level: Level, holdMs: nat)

  /** `sleep(.3)` after a dot. */
  const DotMs: nat := 300

  /** `sleep(1)` after a dash. */
  const DashMs: nat := 1000

  /** `sleep(.3)` after a space. */
  const GapMs: nat := 300

  /** The three LED pins, one of which `random.choice` picks. */
  predicate IsLedPin(pin: int) {
    pin == 7 || pin == 11 || pin == 13
  }

  /** The writes that switch every LED off before a message is shown; no sleep follows them. */
  function ResetWrites(): (w: seq<Write>)
    ensures |w| == 3
    ensures forall j :: 0 <= j < |w| ==> IsLedPin(w[j].pin) && w[j].level == Low && w[j].holdMs == 0
    ensures forall p :: IsLedPin(p) ==> Write(p, Low, 0) in w
  {
    [Write(7, Low, 0), Write(11, Low, 0), Write(13, Low, 0)]
  }

  /** The writes one character of the message causes: a dot or a dash lights the LED, a space darkens it. */
  function SymbolWrites(c: char, pin: int): (w: seq<Write>)
    ensures |w| == if Morse.IsMorseSymbol(c) then 1 else 0
    ensures |w| == 1 ==> w[0].pin == pin && (w[0].level == High <==> Morse.IsMark(c))
  {
    if c == '.' then [Write(pin, High, DotMs)]
    else if c == '-' then [Write(pin, High, DashMs)]
    else if c == ' ' then [Write(pin, Low, GapMs)]
    else []
  }

  /** The writes of the symbol loop over `message` when the stop flag stays clear. */
  function Played(message: string, pin: int): (w: seq<Write>)
    ensures |w| <= |message|
    decreases |message|
  {
    if message == [] then []
    else Played(message[..|message| - 1], pin) + SymbolWrites(message[|message| - 1], pin)
  }

  /** The number of symbols the loop gets through: those before the first check that finds the flag set. */
  function FirstStop(stops: seq<bool>): (k: nat)
    ensures k <= |stops|
    ensures forall i :: 0 <= i < k ==> !stops[i]
    ensures k < |stops| ==> stops[k]
    decreases |stops|
  {
    if stops == [] then 0
    else if stops[0] then 0
    else 1 + FirstStop(stops[1..])
  }

  /** The whole trace of `playMorse(message)`: the reset, then the symbols up to the first stop. */
  function PlayTrace(message: string, pin: int, stops: seq<bool>): (r: seq<Write>)
    requires |stops| == |message|
    ensures |r| == |ResetWrites()| + SymbolCount(message[..FirstStop(stops)])
    ensures forall j :: |ResetWrites()| <= j < |r| ==> r[j].pin == pin
  {
    PlayedWrites(message[..FirstStop(stops)], pin);
    ResetWrites() + Played(message[..FirstStop(stops)], pin)
  }

  /**
   * `playMorse`: switches the three LEDs off, then for each character of
   * the message checks the stop flag (`stops[i]`, its value before
   * character `i`) and either stops or writes that character's level.
   */
  method PlayMorse(message: string, pin: int, stops: seq<bool>) returns (trace: seq<Write>)
    requires IsLedPin(pin)
    requires |stops| == |message|
    ensures trace == PlayTrace(message, pin, stops)
  {
    trace := [Write(7, Low, 0)];
    trace := trace + [Write(11, Low, 0)];
    trace := trace + [Write(13, Low, 0)];
    var i := 0;
    while i < |message|
      invariant 0 <= i <= |message|
      invariant forall j :: 0 <= j < i ==> !stops[j]
      invariant trace == ResetWrites() + Played(message[..i], pin)
    {
      if stops[i] {
        break;
      }
      var comp := message[i];
      AppendSymbol(trace, message, pin, i);
      ghost var next := trace + SymbolWrites(comp, pin);
      if comp == '.' {
        trace := trace + [Write(pin, High, DotMs)];
      } else if comp == '-' {
        trace := trace + [Write(pin, High, DashMs)];
      } else if comp == ' ' {
        trace := trace + [Write(pin, Low, GapMs)];
      }
      assert trace == next;
      i := i + 1;
    }
    FirstStopUnique(stops, i);
  }

  /** One turn of the loop: the run over a prefix one character longer. */
  lemma PlayedStep(m: string, pin: int, i: nat)
    requires i < |m|
    ensures Played(m[..i + 1], pin) == Played(m[..i], pin) + SymbolWrites(m[i], pin)
  {
    assert m[..i + 1][..i] == m[..i];
  }

  lemma AppendSymbol(trace: seq<Write>, m: string, pin: int, i: nat)
    requires i < |m|
    requires trace == ResetWrites() + Played(m[..i], pin)
    ensures trace + SymbolWrites(m[i], pin) == ResetWrites() + Played(m[..i + 1], pin)
  {
    PlayedStep(m, pin, i);
  }

  /** The first stop is the only index with every earlier flag clear and its own set, or the end. */
  lemma FirstStopUnique(stops: seq<bool>, k: nat)
    requires k <= |stops|
    requires forall i :: 0 <= i < k ==> !stops[i]
    requires k < |stops| ==> stops[k]
    ensures FirstStop(stops) == k
  {
  }

  /** Every trace starts with LOW on pins 7, 11 and 13. */
  lemma TraceStartsWithReset(message: string, pin: int, stops: seq<bool>)
    requires |stops| == |message|
    ensures |PlayTrace(message, pin, stops)| >= 3
    ensures PlayTrace(message, pin, stops)[..3] == ResetWrites()
  {
  }

  /** A flag already set at the first check leaves only the reset. */
  lemma StopAtOnce(message: string, pin: int, stops: seq<bool>)
    requires |stops| == |message| && message != [] && stops[0]
    ensures PlayTrace(message, pin, stops) == ResetWrites()
  {
  }

  /** A stop before symbol `k` plays exactly the first `k` symbols, as an uninterrupted run over them would. */
  lemma StopPlaysPrefix(message: string, pin: int, stops: seq<bool>, k: nat)
    requires |stops| == |message| && k < |message|
    requires stops[k] && forall i :: 0 <= i < k ==> !stops[i]
    ensures PlayTrace(message, pin, stops) == ResetWrites() + Played(message[..k], pin)
  {
    FirstStopUnique(stops, k);
  }

  /** With the flag clear throughout, every symbol of the message is played. */
  lemma NoStopPlaysAll(message: string, pin: int, stops: seq<bool>)
    requires |stops| == |message|
    requires forall i :: 0 <= i < |stops| ==> !stops[i]
    ensures PlayTrace(message, pin, stops) == ResetWrites() + Played(message, pin)
  {
    FirstStopUnique(stops, |stops|);
    assert message[..|message|] == message;
  }

  /** The symbol loop over `a + b` plays `a`, then `b`. */
  lemma {:induction false} PlayedConcat(a: string, b: string, pin: int)
    ensures Played(a + b, pin) == Played(a, pin) + Played(b, pin)
    decreases |b|
  {
    if b == [] {
      assert a + b == a;
    } else {
      var b' := b[..|b| - 1];
      assert (a + b)[..|a + b| - 1] == a + b';
      assert (a + b)[|a + b| - 1] == b[|b| - 1];
      PlayedConcat(a, b', pin);
    }
  }

  /** The number of dots, dashes and spaces in `s`. */
  function SymbolCount(s: string): nat
    decreases |s|
  {
    if s == [] then 0
    else SymbolCount(s[..|s| - 1]) + (if Morse.IsMorseSymbol(s[|s| - 1]) then 1 else 0)
  }

  /** One write per symbol, none for any other character, every one on the chosen pin. */
  lemma {:induction false} PlayedWrites(message: string, pin: int)
    ensures |Played(message, pin)| == SymbolCount(message)
    ensures forall j :: 0 <= j < |Played(message, pin)| ==> Played(message, pin)[j].pin == pin
    decreases |message|
  {
    if message != [] {
      PlayedWrites(message[..|message| - 1], pin);
    }
  }

  /** Over a string of symbols only, write `j` is the write for character `j`. */
  lemma {:induction false} PlayedSymbols(message: string, pin: int)
    requires forall k :: 0 <= k < |message| ==> Morse.IsMorseSymbol(message[k])
    ensures |Played(message, pin)| == |message|
    ensures forall j :: 0 <= j < |message| ==> [Played(message, pin)[j]] == SymbolWrites(message[j], pin)
    decreases |message|
  {
    if message != [] {
      var n := |message| - 1;
      var init := message[..n];
      assert forall k :: 0 <= k < n ==> init[k] == message[k];
      PlayedSymbols(init, pin);
    }
  }

  /** A run over an encoding ending in a space ends with the LED switched off for a gap. */
  lemma PlayedEndsLow(message: string, pin: int)
    requires |message| >= 1 && message[|message| - 1] == ' '
    ensures |Played(message, pin)| >= 1
    ensures Played(message, pin)[|Played(message, pin)| - 1] == Write(pin, Low, GapMs)
  {
  }

  /**
   * An uninterrupted run over the encoding of a non-empty message writes
   * once per symbol after the reset, on the chosen pin, and ends LOW.
   */
  lemma EncodedPlayback(m: string, pin: int, stops: seq<bool>)
    requires m != [] && Morse.Encoded(m).Ok?
    requires |stops| == |Morse.Encoded(m).value|
    requires forall i :: 0 <= i < |stops| ==> !stops[i]
    ensures |PlayTrace(Morse.Encoded(m).value, pin, stops)| == 3 + |Morse.Encoded(m).value|
    ensures forall j :: 3 <= j < |PlayTrace(Morse.Encoded(m).value, pin, stops)| ==>
      PlayTrace(Morse.Encoded(m).value, pin, stops)[j].pin == pin
    ensures PlayTrace(Morse.Encoded(m).value, pin, stops)[|PlayTrace(Morse.Encoded(m).value, pin, stops)| - 1] == Write(pin, Low, GapMs)
  {
    var e := Morse.Encoded(m).value;
    NoStopPlaysAll(e, pin, stops);
    Morse.EncodedSymbols(m);
    PlayedSymbols(e, pin);
    PlayedWrites(e, pin);
    Morse.EncodedEndsWithGap(m);
    assert e[|e| - 1] == Morse.LetterGap[2];
    PlayedEndsLow(e, pin);
  }

  /** The code of `S` with its letter gap: three short flashes, a gap after each of the first two, then the three-gap letter space. */
  lemma SPlayback(pin: int)
    ensures var dot, gap := Write(pin, High, DotMs), Write(pin, Low, GapMs);
      Played(". . .   ", pin) == [dot, gap, dot, gap, dot, gap, gap, gap]
  {
    PlayedSymbols(". . .   ", pin);
  }

  /** The code of `O` with its letter gap: three long flashes, a gap after each of the first two, then the three-gap letter space. */
  lemma OPlayback(pin: int)
    ensures var dash, gap := Write(pin, High, DashMs), Write(pin, Low, GapMs);
      Played("- - -   ", pin) == [dash, gap, dash, gap, dash, gap, gap, gap]
  {
    PlayedSymbols("- - -   ", pin);
  }

  /**
   * `SOS` plays as three short flashes, three long flashes and three short
   * flashes; within a letter the flashes are one gap apart, and each letter
   * is followed by the three-gap letter space.
   */
  lemma SosPlayback(pin: int)
    ensures Morse.Encoded("SOS").Ok?
    ensures var dot, dash, gap := Write(pin, High, DotMs), Write(pin, High, DashMs), Write(pin, Low, GapMs);
      var s, o := [dot, gap, dot, gap, dot, gap, gap, gap], [dash, gap, dash, gap, dash, gap, gap, gap];
      Played(Morse.Encoded("SOS").value, pin) == s + o + s
  {
    Morse.SosExample();
    var s, o := ". . .   ", "- - -   ";
    SPlayback(pin);
    OPlayback(pin);
    PlayedConcat(s, o, pin);
    PlayedConcat(s + o, s, pin);
    SosLettersJoined();
  }

  lemma SosLettersJoined()
    ensures ". . .   " + "- - -   " + ". . .   " == ". . .   - - -   . . .   "
  {
  }
}
