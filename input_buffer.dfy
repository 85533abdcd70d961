/**
 * The message buffer of the keyboard: the `label` string of the
 * application, which holds the typed content followed by a `_`
 * cursor placeholder, and the three callbacks that read or rewrite it
 * (`buttonPress`, `backspacePress` and the read in `submitPress`).
 */
module InputBuffer {
  import opened Wrappers
  import Morse

  /** The most content characters the label holds before the cursor. */
  const MaxContent: nat := 12

  /** The placeholder that always ends the label. */
  const Cursor: char := '_'

  /** The label the application starts with: no content, only the cursor. */
  function InitialLabel(): (l: string)
    ensures ValidLabel(l) && Content(l) == []
  {
    [Cursor]
  }

  /** The text `buttonPress` inserts for a key name: the key `space` stands for a space. */
  function KeyText(letter: string): (r: string)
    ensures letter == "space" ==> r == " "
    ensures letter != "space" ==> r == letter
    ensures |r| == 1 <==> letter == "space" || |letter| == 1
  {
    if letter == "space" then " " else letter
  }

  /** A key whose press inserts exactly one character, as every key wired to `buttonPress` does. */
  predicate IsOneCharKey(letter: string) {
    |KeyText(letter)| == 1
  }

  /** The label invariant: content of at most twelve characters, then the cursor. */
  predicate ValidLabel(labelText: string) {
    1 <= |labelText| <= MaxContent + 1 && labelText[|labelText| - 1] == Cursor
  }

  /** The text a submit hands to the encoder, `label[:-1]`: the label without its cursor. */
  function Content(labelText: string): (c: string)
    requires ValidLabel(labelText)
    ensures |c| == |labelText| - 1 <= MaxContent
  {
    labelText[..|labelText| - 1]
  }

  /** The label after `buttonPress(letter)`. Python's `label[:-1]` keeps an empty string empty. */
  function Pressed(labelText: string, letter: string): (r: string)
    ensures ValidLabel(labelText) && IsOneCharKey(letter) ==> ValidLabel(r)
    ensures ValidLabel(labelText) && IsOneCharKey(letter) ==>
      Content(r) == if |Content(labelText)| < MaxContent then Content(labelText) + KeyText(letter) else Content(labelText)
  {
    if |labelText| < 13 then
      (if labelText == [] then [] else labelText[..|labelText| - 1]) + KeyText(letter) + [Cursor]
    else
      labelText
  }

  /** The label after `backspacePress()`. */
  function Backspaced(labelText: string): (r: string)
    ensures ValidLabel(labelText) ==> ValidLabel(r)
    ensures ValidLabel(labelText) ==>
      Content(r) == if Content(labelText) == [] then [] else Content(labelText)[..|Content(labelText)| - 1]
  {
    if |labelText| >= 2 then labelText[..|labelText| - 2] + [Cursor] else labelText
  }

  /** A press that fits, followed by a backspace, restores the label. */
  lemma PressThenBackspace(labelText: string, letter: string)
    requires ValidLabel(labelText) && IsOneCharKey(letter)
    requires |Content(labelText)| < MaxContent
    ensures Backspaced(Pressed(labelText, letter)) == labelText
  {
    var c := Content(labelText);
    var p := Pressed(labelText, letter);
    assert Content(p) == c + KeyText(letter);
    assert Content(Backspaced(p)) == c;
  }

  /** The label after pressing the keys `letters` in order. */
  function PressAll(labelText: string, letters: seq<string>): string
    decreases |letters|
  {
    if letters == [] then labelText
    else Pressed(PressAll(labelText, letters[..|letters| - 1]), letters[|letters| - 1])
  }

  /** The label after `n` backspaces. */
  function BackspaceTimes(labelText: string, n: nat): string
    decreases n
  {
    if n == 0 then labelText else BackspaceTimes(Backspaced(labelText), n - 1)
  }

  /** Keys that each insert one character. */
  predicate OneCharKeys(letters: seq<string>) {
    forall k :: 0 <= k < |letters| ==> IsOneCharKey(letters[k])
  }

  lemma OneCharKeysPrefix(letters: seq<string>, n: nat)
    requires OneCharKeys(letters) && n <= |letters|
    ensures OneCharKeys(letters[..n])
  {
  }

  /** The characters the keys `letters` insert, when nothing is refused. */
  function Texts(letters: seq<string>): string
    decreases |letters|
  {
    if letters == [] then "" else Texts(letters[..|letters| - 1]) + KeyText(letters[|letters| - 1])
  }

  function Min(a: int, b: int): int {
    if a <= b then a else b
  }

  lemma {:induction false} TextsLength(letters: seq<string>)
    requires OneCharKeys(letters)
    ensures |Texts(letters)| == |letters|
    decreases |letters|
  {
    if letters != [] {
      TextsLength(letters[..|letters| - 1]);
    }
  }

  /** One press as seen on the content: the typed text so far, cut at twelve characters. */
  lemma PressedPrefix(before: string, letter: string, typed: string)
    requires ValidLabel(before) && IsOneCharKey(letter)
    requires Content(before) == typed[..Min(MaxContent, |typed|)]
    ensures ValidLabel(Pressed(before, letter))
    ensures Content(Pressed(before, letter)) == (typed + KeyText(letter))[..Min(MaxContent, |typed| + 1)]
  {
    var t := KeyText(letter);
    if |typed| < MaxContent {
      assert typed[..|typed|] == typed;
      assert (typed + t)[..|typed| + 1] == typed + t;
    } else {
      assert (typed + t)[..MaxContent] == typed[..MaxContent];
    }
  }

  /** The content after pressing `letters`: the text typed so far, cut at twelve characters. */
  predicate PressedAsTyped(labelText: string, letters: seq<string>)
    requires ValidLabel(labelText)
  {
    var after := PressAll(labelText, letters);
    var typed := Content(labelText) + Texts(letters);
    ValidLabel(after) && Content(after) == typed[..Min(MaxContent, |typed|)]
  }

  lemma PressAllStep(labelText: string, letters: seq<string>)
    requires ValidLabel(labelText) && letters != [] && IsOneCharKey(letters[|letters| - 1])
    requires PressedAsTyped(labelText, letters[..|letters| - 1])
    ensures PressedAsTyped(labelText, letters)
  {
    var n := |letters| - 1;
    var init := letters[..n];
    var before := PressAll(labelText, init);
    assert PressAll(labelText, letters) == Pressed(before, letters[n]);
    var typed := Content(labelText) + Texts(init);
    assert Texts(letters) == Texts(init) + KeyText(letters[n]);
    PressedPrefix(before, letters[n], typed);
    assert Content(labelText) + Texts(letters) == typed + KeyText(letters[n]);
  }

  /** Presses beyond the twelfth content character are ignored; the others are appended in order. */
  lemma {:induction false} PressAllContent(labelText: string, letters: seq<string>)
    requires ValidLabel(labelText)
    requires OneCharKeys(letters)
    ensures PressedAsTyped(labelText, letters)
    decreases |letters|
  {
    if letters == [] {
      var c := Content(labelText);
      assert c + Texts(letters) == c;
      assert c[..|c|] == c;
    } else {
      var n := |letters| - 1;
      OneCharKeysPrefix(letters, n);
      PressAllContent(labelText, letters[..n]);
      PressAllStep(labelText, letters);
    }
  }

  /** The number of content characters after pressing `letters`: one per key, up to twelve. */
  lemma PressAllLength(labelText: string, letters: seq<string>)
    requires ValidLabel(labelText)
    requires OneCharKeys(letters)
    ensures ValidLabel(PressAll(labelText, letters))
    ensures |Content(PressAll(labelText, letters))| == Min(MaxContent, |Content(labelText)| + |letters|)
  {
    PressAllContent(labelText, letters);
    TextsLength(letters);
  }

  /** Thirteen presses into an empty buffer leave twelve content characters. */
  lemma ThirteenPressesKeepTwelve(letters: seq<string>)
    requires |letters| == 13
    requires OneCharKeys(letters)
    ensures ValidLabel(PressAll(InitialLabel(), letters))
    ensures |Content(PressAll(InitialLabel(), letters))| == MaxContent
  {
    PressAllLength(InitialLabel(), letters);
  }

  /** A valid label is determined by its content. */
  lemma SameContentSameLabel(x: string, y: string)
    requires ValidLabel(x) && ValidLabel(y) && Content(x) == Content(y)
    ensures x == y
  {
    assert x == Content(x) + [Cursor];
    assert y == Content(y) + [Cursor];
  }

  /** `n` backspaces drop the last `n` content characters. */
  lemma {:induction false} BackspaceTimesContent(labelText: string, n: nat)
    requires ValidLabel(labelText) && n <= |Content(labelText)|
    ensures ValidLabel(BackspaceTimes(labelText, n))
    ensures Content(BackspaceTimes(labelText, n)) == Content(labelText)[..|Content(labelText)| - n]
    decreases n
  {
    var c := Content(labelText);
    if n == 0 {
      assert c[..|c|] == c;
    } else {
      var b := Backspaced(labelText);
      BackspaceTimesContent(b, n - 1);
      assert c[..|c| - 1][..|c| - 1 - (n - 1)] == c[..|c| - n];
    }
  }

  /** The text of a prefix of the keys is the prefix of their text. */
  lemma {:induction false} TextsPrefix(letters: seq<string>, k: nat)
    requires OneCharKeys(letters) && k <= |letters|
    ensures |Texts(letters)| == |letters|
    ensures Texts(letters[..k]) == Texts(letters)[..k]
    decreases |letters|
  {
    TextsLength(letters);
    if k == |letters| {
      assert letters[..k] == letters;
    } else {
      var n := |letters| - 1;
      OneCharKeysPrefix(letters, n);
      TextsPrefix(letters[..n], k);
      TextsPrefixStep(letters, k);
    }
  }

  lemma TextsPrefixStep(letters: seq<string>, k: nat)
    requires k < |letters|
    requires |Texts(letters[..|letters| - 1])| == |letters| - 1
    requires Texts(letters[..|letters| - 1][..k]) == Texts(letters[..|letters| - 1])[..k]
    ensures Texts(letters[..k]) == Texts(letters)[..k]
  {
    var n := |letters| - 1;
    var a := Texts(letters[..n]);
    var t := KeyText(letters[n]);
    assert letters[..n][..k] == letters[..k];
    assert Texts(letters) == a + t;
    assert (a + t)[..k] == a[..k];
  }

  /** Presses that all fit leave the content equal to the typed text. */
  lemma PressAllFits(labelText: string, letters: seq<string>)
    requires ValidLabel(labelText) && OneCharKeys(letters)
    requires |Content(labelText)| + |letters| <= MaxContent
    ensures ValidLabel(PressAll(labelText, letters))
    ensures Content(PressAll(labelText, letters)) == Content(labelText) + Texts(letters)
  {
    PressAllContent(labelText, letters);
    TextsLength(letters);
    var typed := Content(labelText) + Texts(letters);
    assert typed[..|typed|] == typed;
  }

  /** Backspacing `n` times after presses that all fit undoes the last `n` of them. */
  lemma BackspacesUndoPresses(labelText: string, letters: seq<string>, n: nat)
    requires ValidLabel(labelText)
    requires OneCharKeys(letters)
    requires |Content(labelText)| + |letters| <= MaxContent
    requires n <= |letters|
    ensures BackspaceTimes(PressAll(labelText, letters), n) == PressAll(labelText, letters[..|letters| - n])
  {
    var c := Content(labelText);
    var k := |letters| - n;
    PressAllFits(labelText, letters);
    TextsPrefix(letters, k);
    OneCharKeysPrefix(letters, k);
    PressAllFits(labelText, letters[..k]);
    var all := PressAll(labelText, letters);
    BackspaceTimesContent(all, n);
    assert (c + Texts(letters))[..|c| + k] == c + Texts(letters)[..k];
    SameContentSameLabel(BackspaceTimes(all, n), PressAll(labelText, letters[..k]));
  }

  /** What the user can do to the buffer: a key wired to `buttonPress`, or the backspace key. */
  datatype KeyEvent = Button(letter: string) | Backspace

  /** The label after one key event. */
  function Apply(labelText: string, event: KeyEvent): string {
    match event
    case Button(letter) => Pressed(labelText, letter)
    case Backspace => Backspaced(labelText)
  }

  /** The label after a sequence of key events, starting from the initial label. */
  function Replay(events: seq<KeyEvent>): string
    decreases |events|
  {
    if events == [] then InitialLabel()
    else Apply(Replay(events[..|events| - 1]), events[|events| - 1])
  }

  /** Every step presses a one-character key or backspaces. */
  predicate OneCharEvents(events: seq<KeyEvent>) {
    forall k :: 0 <= k < |events| ==> (events[k].Button? ==> IsOneCharKey(events[k].letter))
  }

  /** From the initial label, the label always ends in the cursor and holds at most twelve content characters. */
  lemma {:induction false} ReplayValid(events: seq<KeyEvent>)
    requires OneCharEvents(events)
    ensures ValidLabel(Replay(events))
    decreases |events|
  {
    if events != [] {
      var init := events[..|events| - 1];
      assert forall k :: 0 <= k < |init| ==> init[k] == events[k];
      ReplayValid(init);
    }
  }

  /** The application's buffer state: the label and the last successful encoding. */
  class App {
    var labelText: string
    var encodedMessage: Option<string>

    ghost predicate Valid()
      reads this
    {
      ValidLabel(labelText)
    }

    /** `self.label = "_"` and `self.encoded_message = None`. */
    constructor ()
      ensures Valid()
      ensures labelText == InitialLabel() && Content(labelText) == []
      ensures encodedMessage == None
    {
      labelText := InitialLabel();
      encodedMessage := None;
    }

    /** `buttonPress`: inserts the key's text before the cursor unless twelve characters are held. */
    method ButtonPress(letter: string)
      requires Valid()
      modifies this
      ensures labelText == Pressed(old(labelText), letter)
      ensures IsOneCharKey(letter) ==> Valid()
      ensures IsOneCharKey(letter) ==>
        Content(labelText) ==
          if |old(Content(labelText))| < MaxContent then old(Content(labelText)) + KeyText(letter) else old(Content(labelText))
      ensures encodedMessage == old(encodedMessage)
    {
      var text := KeyText(letter);
      if |labelText| < 13 {
        labelText := labelText[..|labelText| - 1] + text + [Cursor];
      }
    }

    /** `backspacePress`: removes the character before the cursor, if there is one. */
    method BackspacePress()
      requires Valid()
      modifies this
      ensures Valid()
      ensures labelText == Backspaced(old(labelText))
      ensures old(Content(labelText)) != [] ==> Content(labelText) == old(Content(labelText))[..|old(Content(labelText))| - 1]
      ensures old(Content(labelText)) == [] ==> labelText == old(labelText)
      ensures encodedMessage == old(encodedMessage)
    {
      if |labelText| >= 2 {
        labelText := labelText[..|labelText| - 2] + [Cursor];
      }
    }

    /**
     * The encoding step of `submitPress`: encodes `label[:-1]`, keeps the
     * result on success, and leaves the label as it was. The thread that
     * plays the result is not part of this method.
     */
    method SubmitPress() returns (r: Result<string, Morse.EncodeError>)
      requires Valid()
      modifies this`encodedMessage
      ensures labelText == old(labelText)
      ensures r == Morse.Encoded(Content(labelText))
      ensures encodedMessage == if r.Ok? then Some(r.value) else old(encodedMessage)
    {
      r := Morse.EncodeMorse(labelText[..|labelText| - 1]);
      if r.Ok? {
        encodedMessage := Some(r.value);
      }
    }
  }
}
