/**
 * `VALID_KEYS`, the keys the on-screen keyboard leaves enabled, and the
 * claim made for it: every enabled key types something the encoder accepts.
 */
module Keys {
  import Morse
  import InputBuffer

  const PunctuationKeys: seq<string> := [",", ".", "?", "/", "-", "(", ")"]

  const UpperKeys: seq<string> := [
    "Q", "W", "E", "R", "T", "Y", "U", "I", "O", "P",
    "A", "S", "D", "F", "G", "H", "J", "K", "L",
    "Z", "X", "C", "V", "B", "N", "M"
  ]

  const DigitKeys: seq<string> := ["1", "2", "3", "4", "5", "6", "7", "8", "9", "0"]

  const LowerKeys: seq<string> := [
    "q", "w", "e", "r", "t", "y", "u", "i", "o", "p",
    "a", "s", "d", "f", "g", "h", "j", "k", "l",
    "z", "x", "c", "v", "b", "n", "m"
  ]

  const ControlKeys: seq<string> := ["shift", "space", "<---"]

  /**
   * `VALID_KEYS`, the same 72 entries in the same order, written as the
   * five runs it is made of. A keyboard button whose text is not listed
   * is disabled.
   */
  function ValidKeys(): (keys: seq<string>)
    ensures |keys| == 72
    ensures keys[69] == "shift" && keys[70] == "space" && keys[71] == "<---"
  {
    PunctuationKeys + UpperKeys + DigitKeys + LowerKeys + ControlKeys
  }

  /** An enabled key wired to `buttonPress`: every listed key except `shift` and the backspace key `<---`. */
  predicate IsButtonKey(k: string) {
    k in ValidKeys() && k != "shift" && k != "<---"
  }

  /** What an enabled key hands to `buttonPress`: the key `space`, or one table character. */
  predicate IsButtonText(k: string) {
    k == "space" || (|k| == 1 && Morse.IsTableChar(k[0]))
  }

  lemma PunctuationKeysShape(k: string)
    requires k in PunctuationKeys
    ensures IsButtonText(k)
  {
  }

  lemma UpperKeysShape(k: string)
    requires k in UpperKeys
    ensures IsButtonText(k)
  {
  }

  lemma DigitKeysShape(k: string)
    requires k in DigitKeys
    ensures IsButtonText(k)
  {
  }

  lemma LowerKeysShape(k: string)
    requires k in LowerKeys
    ensures IsButtonText(k)
  {
  }

  /** Besides the key `space`, the keys wired to `buttonPress` are single table characters. */
  lemma ButtonKeyShape(k: string)
    requires IsButtonKey(k)
    ensures IsButtonText(k)
  {
    if k in PunctuationKeys {
      PunctuationKeysShape(k);
    } else if k in UpperKeys {
      UpperKeysShape(k);
    } else if k in DigitKeys {
      DigitKeysShape(k);
    } else if k in LowerKeys {
      LowerKeysShape(k);
    }
  }

  /** Every enabled key wired to `buttonPress` inserts one character, and the encoder accepts it. */
  lemma ButtonKeyEncodable(k: string)
    requires IsButtonKey(k)
    ensures InputBuffer.IsOneCharKey(k)
    ensures Morse.Encodable(InputBuffer.KeyText(k)[0])
  {
    ButtonKeyShape(k);
    if k != "space" {
      Morse.TableCharEncodable(k[0]);
    }
  }

  /** Key events the keyboard can produce: enabled character keys and the backspace key. */
  predicate EnabledEvents(events: seq<InputBuffer.KeyEvent>) {
    forall k :: 0 <= k < |events| ==> (events[k].Button? ==> IsButtonKey(events[k].letter))
  }

  predicate AllEncodable(s: string) {
    forall i :: 0 <= i < |s| ==> Morse.Encodable(s[i])
  }

  lemma EnabledOneChar(events: seq<InputBuffer.KeyEvent>)
    requires EnabledEvents(events)
    ensures InputBuffer.OneCharEvents(events)
  {
    forall k | 0 <= k < |events| && events[k].Button?
      ensures InputBuffer.IsOneCharKey(events[k].letter)
    {
      ButtonKeyEncodable(events[k].letter);
    }
  }

  lemma AppendEncodable(a: string, b: string)
    requires AllEncodable(a) && AllEncodable(b)
    ensures AllEncodable(a + b)
  {
    assert forall i :: 0 <= i < |a + b| ==> (a + b)[i] == if i < |a| then a[i] else b[i - |a|];
  }

  lemma PrefixEncodable(a: string, n: nat)
    requires AllEncodable(a) && n <= |a|
    ensures AllEncodable(a[..n])
  {
  }

  lemma PressEncodable(labelText: string, letter: string)
    requires InputBuffer.ValidLabel(labelText) && AllEncodable(InputBuffer.Content(labelText))
    requires InputBuffer.IsOneCharKey(letter) && Morse.Encodable(InputBuffer.KeyText(letter)[0])
    ensures InputBuffer.ValidLabel(InputBuffer.Pressed(labelText, letter))
    ensures AllEncodable(InputBuffer.Content(InputBuffer.Pressed(labelText, letter)))
  {
    AppendEncodable(InputBuffer.Content(labelText), InputBuffer.KeyText(letter));
  }

  lemma BackspaceEncodable(labelText: string)
    requires InputBuffer.ValidLabel(labelText) && AllEncodable(InputBuffer.Content(labelText))
    ensures InputBuffer.ValidLabel(InputBuffer.Backspaced(labelText))
    ensures AllEncodable(InputBuffer.Content(InputBuffer.Backspaced(labelText)))
  {
    var c := InputBuffer.Content(labelText);
    if c != [] {
      PrefixEncodable(c, |c| - 1);
    }
  }

  /** One enabled key event keeps the content encodable. */
  lemma ApplyEncodable(labelText: string, event: InputBuffer.KeyEvent)
    requires InputBuffer.ValidLabel(labelText) && AllEncodable(InputBuffer.Content(labelText))
    requires event.Button? ==> IsButtonKey(event.letter)
    ensures InputBuffer.ValidLabel(InputBuffer.Apply(labelText, event))
    ensures AllEncodable(InputBuffer.Content(InputBuffer.Apply(labelText, event)))
  {
    match event
    case Button(letter) =>
      ButtonKeyEncodable(letter);
      PressEncodable(labelText, letter);
    case Backspace => BackspaceEncodable(labelText);
  }

  lemma {:induction false} EnabledEventsContent(events: seq<InputBuffer.KeyEvent>)
    requires EnabledEvents(events)
    ensures InputBuffer.ValidLabel(InputBuffer.Replay(events))
    ensures AllEncodable(InputBuffer.Content(InputBuffer.Replay(events)))
    decreases |events|
  {
    if events != [] {
      var n := |events| - 1;
      var init := events[..n];
      assert forall k :: 0 <= k < n ==> init[k] == events[k];
      EnabledEventsContent(init);
      ApplyEncodable(InputBuffer.Replay(init), events[n]);
    }
  }

  /**
   * Whatever the enabled keys type, starting from the initial label, a
   * submit encodes it without a KeyError.
   */
  lemma EnabledKeysSubmitEncodes(events: seq<InputBuffer.KeyEvent>)
    requires EnabledEvents(events)
    ensures InputBuffer.ValidLabel(InputBuffer.Replay(events))
    ensures Morse.Encoded(InputBuffer.Content(InputBuffer.Replay(events))).Ok?
  {
    EnabledEventsContent(events);
    Morse.EncodedOkIff(InputBuffer.Content(InputBuffer.Replay(events)));
  }
}
