/**
 * The Morse encoder `encode_morse`: a fixed table of 43 codes, ASCII
 * uppercasing of each character, and a left-to-right loop that appends
 * each character's contribution or raises `KeyError`.
 */
module Morse {
  import opened Wrappers

  /** The exception the dictionary lookup raises, naming the uppercased character. */
  datatype EncodeError = KeyError(key: char)

  /**
   * `morse_dict`: letters, digits and seven punctuation marks. A lookup
   * yields `Some(code)` for one of the 43 keys and `None` where the
   * dictionary has no entry. The entries are grouped by kind of key so
   * that a lookup inspects one group only.
   */
  function MorseCode(key: char): (r: Option<string>)
    ensures r.Some? ==> IsTableKey(key)
  {
    if 'A' <= key <= 'Z' then LetterCode(key)
    else if '0' <= key <= '9' then DigitCode(key)
    else PunctuationCode(key)
  }

  /** The entries for `A` to `Z`. */
  function LetterCode(key: char): (r: Option<string>)
    ensures r.Some? ==> 'A' <= key <= 'Z'
  {
    match key
    case 'A' => Some(". -")
    case 'B' => Some("- . . .")
    case 'C' => Some("- . - .")
    case 'D' => Some("- . .")
    case 'E' => Some(".")
    case 'F' => Some(". . - .")
    case 'G' => Some("- - .")
    case 'H' => Some(". . . .")
    case 'I' => Some(". .")
    case 'J' => Some(". - - -")
    case 'K' => Some("- . -")
    case 'L' => Some(". - . .")
    case 'M' => Some("- -")
    case 'N' => Some("- .")
    case 'O' => Some("- - -")
    case 'P' => Some(". - - .")
    case 'Q' => Some("- - . -")
    case 'R' => Some(". - .")
    case 'S' => Some(". . .")
    case 'T' => Some("-")
    case 'U' => Some(". . -")
    case 'V' => Some(". . . -")
    case 'W' => Some(". - -")
    case 'X' => Some("- . . -")
    case 'Y' => Some("- . - -")
    case 'Z' => Some("- - . .")
    case _ => None
  }

  /** The entries for `1` to `9` and `0`. */
  function DigitCode(key: char): (r: Option<string>)
    ensures r.Some? ==> '0' <= key <= '9'
  {
    match key
    case '1' => Some(". - - - -")
    case '2' => Some(". . - - -")
    case '3' => Some(". . . - -")
    case '4' => Some(". . . . -")
    case '5' => Some(". . . . .")
    case '6' => Some("- . . . .")
    case '7' => Some("- - . . .")
    case '8' => Some("- - - . .")
    case '9' => Some("- - - - .")
    case '0' => Some("- - - - -")
    case _ => None
  }

  /** The entries for `,` `.` `?` `/` `-` `(` `)`. */
  function PunctuationCode(key: char): (r: Option<string>)
    ensures r.Some? ==> IsTableMark(key)
  {
    match key
    case ',' => Some("- - . . - -")
    case '.' => Some(". - . - . -")
    case '?' => Some(". . - - . .")
    case '/' => Some("- . . - .")
    case '-' => Some("- . . . . -")
    case '(' => Some("- . - - .")
    case ')' => Some("- . - - . -")
    case _ => None
  }

  /** Appended after the code of every non-space character. */
  const LetterGap: string := "   "

  /** Appended for every space character of the message. */
  const WordGap: string := "       "

  predicate IsAsciiLower(c: char) {
    'a' <= c <= 'z'
  }

  /** `str.upper` restricted to ASCII: only `a`..`z` change, to `A`..`Z`. */
  function Upper(c: char): (u: char)
    ensures !IsAsciiLower(u)
    ensures u == c || IsAsciiLower(c)
  {
    if IsAsciiLower(c) then (c as int - 32) as char else c
  }

  lemma UpperIdempotent(c: char)
    ensures Upper(Upper(c)) == Upper(c)
  {
  }

  /** The characters an encoding is made of. */
  predicate IsMorseSymbol(c: char) {
    c == '.' || c == '-' || c == ' '
  }

  predicate IsMark(c: char) {
    c == '.' || c == '-'
  }

  /** From index `k` on, `s` is a dot or a dash, then further ones each after a single space. */
  predicate IsCodeFrom(s: string, k: nat)
    decreases |s| - k
  {
    k < |s| && IsMark(s[k]) &&
    (k + 1 == |s| || (k + 2 < |s| && s[k + 1] == ' ' && IsCodeFrom(s, k + 2)))
  }

  /** A well-formed table entry. */
  predicate IsCode(s: string) {
    IsCodeFrom(s, 0)
  }

  /** What one character of the message appends to the encoding: one turn of the loop. */
  function EncodeChar(c: char): (r: Result<string, EncodeError>)
    ensures r.Ok? ==> |r.value| >= 3 && r.value[|r.value| - 3..] == LetterGap
    ensures r.Err? ==> r.error == KeyError(Upper(c)) && Upper(c) != ' ' && MorseCode(Upper(c)).None?
  {
    var u := Upper(c);
    if u != ' ' then
      match MorseCode(u)
      case Some(code) => Ok(code + LetterGap)
      case None => Err(KeyError(u))
    else
      Ok(WordGap)
  }

  /** A character the encoder accepts. */
  predicate Encodable(c: char) {
    EncodeChar(c).Ok?
  }

  /** The accepted characters are the space and those whose uppercase form is a table key. */
  lemma EncodableIff(c: char)
    ensures Encodable(c) <==> c == ' ' || MorseCode(Upper(c)).Some?
    ensures !Encodable(c) ==> EncodeChar(c) == Err(KeyError(Upper(c)))
  {
  }

  /** Sequencing of two steps: the first error wins, otherwise the outputs are concatenated. */
  function Join(a: Result<string, EncodeError>, b: Result<string, EncodeError>): Result<string, EncodeError> {
    match a
    case Err(e) => Err(e)
    case Ok(x) =>
      match b
      case Err(e) => Err(e)
      case Ok(y) => Ok(x + y)
  }

  lemma JoinAssociative(a: Result<string, EncodeError>, b: Result<string, EncodeError>, c: Result<string, EncodeError>)
    ensures Join(Join(a, b), c) == Join(a, Join(b, c))
  {
    if a.Ok? && b.Ok? && c.Ok? {
      assert (a.value + b.value) + c.value == a.value + (b.value + c.value);
    }
  }

  /** The left-to-right pass of the loop with a given per-character step, stopping at the first error. */
  function EncodeWith(step: char -> Result<string, EncodeError>, message: string): (r: Result<string, EncodeError>)
    ensures r.Ok? ==> forall k :: 0 <= k < |message| ==> step(message[k]).Ok?
    decreases |message|
  {
    if message == [] then Ok("")
    else Join(EncodeWith(step, message[..|message| - 1]), step(message[|message| - 1]))
  }

  /** The value `encode_morse(message)` returns, or the error it raises. */
  function Encoded(message: string): (r: Result<string, EncodeError>)
    ensures r.Err? ==> r.error.key != ' ' && !IsAsciiLower(r.error.key) && MorseCode(r.error.key).None?
  {
    var r := EncodeWith(EncodeChar, message);
    if r.Ok? then r else EncodeWithFirstError(EncodeChar, message); r
  }

  /** `encode_morse`: builds the encoding with `+=` in a loop over the message. */
  method EncodeMorse(message: string) returns (r: Result<string, EncodeError>)
    ensures r == Encoded(message)
  {
    var encoded := "";
    var i := 0;
    while i < |message|
      invariant 0 <= i <= |message|
      invariant Encoded(message[..i]) == Ok(encoded)
    {
      EncodeStep(message, i);
      var character := Upper(message[i]);
      if character != ' ' {
        var code := MorseCode(character);
        if code.None? {
          EncodeConcat(message[..i + 1], message[i + 1..]);
          assert message[..i + 1] + message[i + 1..] == message;
          return Err(KeyError(character));
        }
        encoded := encoded + (code.value + LetterGap);
      } else {
        encoded := encoded + WordGap;
      }
      i := i + 1;
    }
    assert message[..i] == message;
    r := Ok(encoded);
  }

  /** One turn of the loop: the encoding of a prefix one character longer. */
  lemma EncodeStep(m: string, i: nat)
    requires i < |m|
    ensures Encoded(m[..i + 1]) == Join(Encoded(m[..i]), EncodeChar(m[i]))
  {
    assert m[..i + 1][..i] == m[..i];
  }

  lemma {:induction false} EncodeWithConcat(step: char -> Result<string, EncodeError>, a: string, b: string)
    ensures EncodeWith(step, a + b) == Join(EncodeWith(step, a), EncodeWith(step, b))
    decreases |b|
  {
    if b == [] {
      assert a + b == a;
      if EncodeWith(step, a).Ok? {
        assert EncodeWith(step, a).value + "" == EncodeWith(step, a).value;
      }
    } else {
      var b' := b[..|b| - 1];
      var c := b[|b| - 1];
      assert (a + b)[..|a + b| - 1] == a + b';
      assert (a + b)[|a + b| - 1] == c;
      EncodeWithConcat(step, a, b');
      JoinAssociative(EncodeWith(step, a), EncodeWith(step, b'), step(c));
    }
  }

  /** The empty message encodes to the empty string. */
  lemma EncodeEmpty()
    ensures Encoded("") == Ok("")
  {
  }

  /** Encoding distributes over concatenation, the first error winning: `encode(a + b) == encode(a) + encode(b)`. */
  lemma EncodeConcat(a: string, b: string)
    ensures Encoded(a + b) == Join(Encoded(a), Encoded(b))
  {
    EncodeWithConcat(EncodeChar, a, b);
  }

  /** The contribution of a single character: its code and three spaces, seven spaces, or a KeyError. */
  lemma EncodeSingle(c: char)
    ensures Encoded([c]) == EncodeChar(c)
    ensures c == ' ' ==> Encoded([c]) == Ok(WordGap)
    ensures c != ' ' && MorseCode(Upper(c)).Some? ==> Encoded([c]) == Ok(MorseCode(Upper(c)).value + LetterGap)
    ensures c != ' ' && MorseCode(Upper(c)).None? ==> Encoded([c]) == Err(KeyError(Upper(c)))
  {
    assert [c][..0] == [];
    assert EncodeWith(EncodeChar, [c]) == Join(EncodeWith(EncodeChar, [c][..0]), EncodeChar([c][0]));
    var e := EncodeChar(c);
    if e.Ok? {
      assert "" + e.value == e.value;
    }
  }

  lemma {:induction false} EncodeWithOkIff(step: char -> Result<string, EncodeError>, message: string)
    ensures EncodeWith(step, message).Ok? <==> forall i :: 0 <= i < |message| ==> step(message[i]).Ok?
    decreases |message|
  {
    if message != [] {
      var n := |message| - 1;
      var init := message[..n];
      EncodeWithOkIff(step, init);
      assert forall i :: 0 <= i < n ==> init[i] == message[i];
    }
  }

  /** Encoding succeeds exactly when every character is a space or a table key up to case. */
  lemma EncodedOkIff(message: string)
    ensures Encoded(message).Ok? <==> forall i :: 0 <= i < |message| ==> Encodable(message[i])
  {
    EncodeWithOkIff(EncodeChar, message);
  }

  lemma {:induction false} EncodeWithFirstError(step: char -> Result<string, EncodeError>, m: string)
    requires EncodeWith(step, m).Err?
    ensures exists i ::
      && 0 <= i < |m|
      && step(m[i]).Err?
      && (forall j :: 0 <= j < i ==> step(m[j]).Ok?)
      && EncodeWith(step, m).error == step(m[i]).error
    decreases |m|
  {
    var n := |m| - 1;
    var init := m[..n];
    assert forall j :: 0 <= j < n ==> init[j] == m[j];
    if EncodeWith(step, init).Err? {
      EncodeWithFirstError(step, init);
      var i :|
        && 0 <= i < |init|
        && step(init[i]).Err?
        && (forall j :: 0 <= j < i ==> step(init[j]).Ok?)
        && EncodeWith(step, init).error == step(init[i]).error;
      assert m[i] == init[i];
    } else {
      EncodeWithOkIff(step, init);
      assert step(m[n]).Err?;
    }
  }

  /** On failure the error is the KeyError of the first unencodable character, uppercased: nothing is skipped. */
  lemma EncodeErrorIsFirstUnknown(m: string)
    requires Encoded(m).Err?
    ensures exists i ::
      && 0 <= i < |m|
      && !Encodable(m[i])
      && (forall j :: 0 <= j < i ==> Encodable(m[j]))
      && Encoded(m) == Err(KeyError(Upper(m[i])))
  {
    EncodeWithFirstError(EncodeChar, m);
    var i :|
      && 0 <= i < |m|
      && EncodeChar(m[i]).Err?
      && (forall j :: 0 <= j < i ==> EncodeChar(m[j]).Ok?)
      && Encoded(m).error == EncodeChar(m[i]).error;
    EncodableIff(m[i]);
  }

  lemma {:induction false} EncodeWithAgree(step: char -> Result<string, EncodeError>, a: string, b: string)
    requires |a| == |b|
    requires forall i :: 0 <= i < |a| ==> step(a[i]) == step(b[i])
    ensures EncodeWith(step, a) == EncodeWith(step, b)
    decreases |a|
  {
    if a != [] {
      var n := |a| - 1;
      EncodeWithAgree(step, a[..n], b[..n]);
    }
  }

  /** Two messages that agree up to case encode alike. */
  lemma EncodeCaseInsensitive(a: string, b: string)
    requires |a| == |b|
    requires forall i :: 0 <= i < |a| ==> Upper(a[i]) == Upper(b[i])
    ensures Encoded(a) == Encoded(b)
  {
    forall i | 0 <= i < |a| ensures EncodeChar(a[i]) == EncodeChar(b[i]) {
      var u := Upper(a[i]);
      assert EncodeChar(a[i]) == if u != ' ' then (if MorseCode(u).Some? then Ok(MorseCode(u).value + LetterGap) else Err(KeyError(u))) else Ok(WordGap);
    }
    EncodeWithAgree(EncodeChar, a, b);
  }

  /** The message with every character uppercased. */
  function UpperString(s: string): (u: string)
    ensures |u| == |s|
    ensures forall i :: 0 <= i < |s| ==> u[i] == Upper(s[i])
  {
    seq(|s|, i requires 0 <= i < |s| => Upper(s[i]))
  }

  /** `encode_morse(m) == encode_morse(m.upper())`. */
  lemma EncodeUpperString(m: string)
    ensures Encoded(UpperString(m)) == Encoded(m)
  {
    forall i | 0 <= i < |m| ensures Upper(UpperString(m)[i]) == Upper(m[i]) {
      UpperIdempotent(m[i]);
    }
    EncodeCaseInsensitive(UpperString(m), m);
  }

  lemma LetterCodesWellFormed(key: char)
    ensures LetterCode(key).Some? ==> IsCode(LetterCode(key).value)
  {
    match key
    case 'A' => assert IsCode(". -");
    case 'B' => assert IsCode("- . . .");
    case 'C' => assert IsCode("- . - .");
    case 'D' => assert IsCode("- . .");
    case 'E' => assert IsCode(".");
    case 'F' => assert IsCode(". . - .");
    case 'G' => assert IsCode("- - .");
    case 'H' => assert IsCode(". . . .");
    case 'I' => assert IsCode(". .");
    case 'J' => assert IsCode(". - - -");
    case 'K' => assert IsCode("- . -");
    case 'L' => assert IsCode(". - . .");
    case 'M' => assert IsCode("- -");
    case 'N' => assert IsCode("- .");
    case 'O' => assert IsCode("- - -");
    case 'P' => assert IsCode(". - - .");
    case 'Q' => assert IsCode("- - . -");
    case 'R' => assert IsCode(". - .");
    case 'S' => assert IsCode(". . .");
    case 'T' => assert IsCode("-");
    case 'U' => assert IsCode(". . -");
    case 'V' => assert IsCode(". . . -");
    case 'W' => assert IsCode(". - -");
    case 'X' => assert IsCode("- . . -");
    case 'Y' => assert IsCode("- . - -");
    case 'Z' => assert IsCode("- - . .");
    case _ =>
  }

  lemma DigitCodesWellFormed(key: char)
    ensures DigitCode(key).Some? ==> IsCode(DigitCode(key).value)
  {
    match key
    case '1' => assert IsCode(". - - - -");
    case '2' => assert IsCode(". . - - -");
    case '3' => assert IsCode(". . . - -");
    case '4' => assert IsCode(". . . . -");
    case '5' => assert IsCode(". . . . .");
    case '6' => assert IsCode("- . . . .");
    case '7' => assert IsCode("- - . . .");
    case '8' => assert IsCode("- - - . .");
    case '9' => assert IsCode("- - - - .");
    case '0' => assert IsCode("- - - - -");
    case _ =>
  }

  lemma PunctuationCodesWellFormed(key: char)
    ensures PunctuationCode(key).Some? ==> IsCode(PunctuationCode(key).value)
  {
    match key
    case ',' => assert IsCode("- - . . - -");
    case '.' => assert IsCode(". - . - . -");
    case '?' => assert IsCode(". . - - . .");
    case '/' => assert IsCode("- . . - .");
    case '-' => assert IsCode("- . . . . -");
    case '(' => assert IsCode("- . - - .");
    case ')' => assert IsCode("- . - - . -");
    case _ =>
  }

  lemma LetterCodeTotal(key: char)
    requires 'A' <= key <= 'Z'
    ensures LetterCode(key).Some?
  {
  }

  lemma DigitCodeTotal(key: char)
    requires '0' <= key <= '9'
    ensures DigitCode(key).Some?
  {
  }

  /** The seven punctuation keys of the table. */
  predicate IsTableMark(c: char) {
    c == ',' || c == '.' || c == '?' || c == '/' || c == '-' || c == '(' || c == ')'
  }

  lemma PunctuationCodeKeys(key: char)
    ensures PunctuationCode(key).Some? <==> IsTableMark(key)
  {
    match key
    case ',' => case '.' => case '?' => case '/' => case '-' => case '(' => case ')' =>
    case _ =>
  }

  /** The 43 keys of the table: the capital letters, the digits and seven marks. */
  predicate IsTableKey(c: char) {
    'A' <= c <= 'Z' || '0' <= c <= '9' || IsTableMark(c)
  }

  /** A character the table has an entry for, up to case: a letter of either case, a digit or one of seven marks. */
  predicate IsTableChar(c: char) {
    IsTableKey(c) || 'a' <= c <= 'z'
  }

  /** The keys of `morse_dict` are exactly the 43 table keys. */
  lemma TableKeys(key: char)
    ensures MorseCode(key).Some? <==> IsTableKey(key)
  {
    if 'A' <= key <= 'Z' {
      LetterCodeTotal(key);
    } else if '0' <= key <= '9' {
      DigitCodeTotal(key);
    } else {
      PunctuationCodeKeys(key);
    }
  }

  /** The table has an entry for every letter of either case, every digit and the seven marks. */
  lemma TableCharEncodable(c: char)
    requires IsTableChar(c)
    ensures MorseCode(Upper(c)).Some?
    ensures Encodable(c)
  {
    TableKeys(Upper(c));
  }

  /** Every table entry is a well-formed code: dots and dashes separated by single spaces. */
  lemma TableWellFormed(key: char)
    ensures MorseCode(key).Some? ==> IsCode(MorseCode(key).value)
  {
    LetterCodesWellFormed(key);
    DigitCodesWellFormed(key);
    PunctuationCodesWellFormed(key);
  }

  lemma {:induction false} CodeSymbolsFrom(s: string, k: nat)
    requires IsCodeFrom(s, k)
    ensures forall j :: k <= j < |s| ==> IsMorseSymbol(s[j])
    decreases |s| - k
  {
    if k + 1 < |s| {
      CodeSymbolsFrom(s, k + 2);
    }
  }

  /** A well-formed code consists of dots, dashes and spaces. */
  lemma CodeSymbols(s: string)
    requires IsCode(s)
    ensures forall k :: 0 <= k < |s| ==> IsMorseSymbol(s[k])
  {
    CodeSymbolsFrom(s, 0);
  }

  /** One character contributes dots, dashes and spaces only. */
  lemma EncodeCharSymbols(c: char)
    requires EncodeChar(c).Ok?
    ensures forall k :: 0 <= k < |EncodeChar(c).value| ==> IsMorseSymbol(EncodeChar(c).value[k])
  {
    var u := Upper(c);
    if u != ' ' {
      TableWellFormed(u);
      CodeSymbols(MorseCode(u).value);
    }
  }

  /** A successful encoding consists of dots, dashes and spaces only. */
  lemma {:induction false} EncodedSymbols(m: string)
    requires Encoded(m).Ok?
    ensures forall k :: 0 <= k < |Encoded(m).value| ==> IsMorseSymbol(Encoded(m).value[k])
    decreases |m|
  {
    if m != [] {
      var n := |m| - 1;
      EncodeStep(m, n);
      assert m[..n + 1] == m;
      EncodedSymbols(m[..n]);
      EncodeCharSymbols(m[n]);
    }
  }

  /** A successful encoding of a non-empty message ends with the three-space gap. */
  lemma EncodedEndsWithGap(m: string)
    requires m != [] && Encoded(m).Ok?
    ensures |Encoded(m).value| >= 3
    ensures Encoded(m).value[|Encoded(m).value| - 3..] == LetterGap
  {
  }

  /** `SOS` encodes to three dots, three dashes, three dots, each letter followed by three spaces. */
  lemma SosExample()
    ensures Encoded("SOS") == Ok(". . .   - - -   . . .   ")
  {
    EncodeSingle('S');
    EncodeSingle('O');
    assert Encoded("S") == Ok(". . ." + LetterGap);
    assert Encoded("O") == Ok("- - -" + LetterGap);
    EncodeConcat("S", "O");
    assert "S" + "O" == "SO";
    EncodeConcat("SO", "S");
    assert "SO" + "S" == "SOS";
    SosSpelledOut();
  }

  lemma SosSpelledOut()
    ensures ". . ." + LetterGap + ("- - -" + LetterGap) + (". . ." + LetterGap) == ". . .   - - -   . . .   "
  {
  }

  /** Lower case encodes like upper case. */
  lemma LowerSosExample()
    ensures Encoded("sos") == Encoded("SOS")
  {
    assert Upper('s') == 'S' && Upper('o') == 'O';
    EncodeCaseInsensitive("sos", "SOS");
  }

  /** A character outside the table is refused rather than skipped. */
  lemma UnknownExample()
    ensures Encoded("a§b") == Err(KeyError('§'))
  {
    assert Upper('a') == 'A' && Upper('§') == '§';
    assert MorseCode('§') == None;
    EncodeSingle('a');
    EncodeSingle('§');
    EncodeConcat("a", "§");
    assert "a" + "§" == "a§";
    EncodeConcat("a§", "b");
    assert "a§" + "b" == "a§b";
  }
}
