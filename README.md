# Morse keyboard: a verified model of its encoder, input buffer and LED playback

`morse_keyboard.py` is a touch-screen keyboard for a Raspberry Pi. The user
types a message of up to twelve characters, and the program encodes it in Morse
code and flashes it on one of three LEDs wired to GPIO pins 7, 11 and 13. This
project models the three pieces of sequential logic inside the program and
proves them correct:

- **The encoder** (`morse.dfy`, module `Morse`). This is `encode_morse` with its
  43-entry `morse_dict`.
  - Each character is ASCII-uppercased.
  - A space contributes seven spaces.
  - Any other character contributes its code followed by three spaces.
  - A character with no entry raises `KeyError`, here the result
    `Err(KeyError(c))`.

  `EncodeMorse` is the loop. It appends each contribution to `encoded`, as the source's `+=` does. It is
  proved equal to `Encoded`, the left-to-right fold of the per-character step
  `EncodeChar`. The properties are proved about `Encoded`.
- **The input buffer** (`input_buffer.dfy`, module `InputBuffer`). This is the
  `label` string of the `App` class, declared as field `labelText` because
  `label` is a Dafny keyword. The string holds the typed content followed by
  the cursor `_`.
  - `buttonPress` inserts before the cursor while the label, cursor included,
    is shorter than 13 characters, i.e. while fewer than 12 are typed. It
    stores the key `space` as `" "`.
  - `backspacePress` removes the character before the cursor.
  - The encoding step of `submitPress` hands `label[:-1]` to the encoder.

  The class `App` holds the methods. The functions `Pressed` and `Backspaced`
  give the label each callback produces, and `PressAll`, `BackspaceTimes` and
  `Replay` apply them to sequences of key events.
- **The enabled keys** (`keys.dfy`, module `Keys`). This is `VALID_KEYS`, the
  list that decides which keyboard buttons stay enabled. It is proved that:
  - every enabled key wired to `buttonPress` types one character the encoder
    accepts;
  - hence no sequence of enabled key presses and backspaces leads to a submit
    that raises `KeyError`.
- **The LED playback** (`playback.dfy`, module `Playback`). This is the loop of
  `playMorse`.
  - Each `GPIO.output` call, together with the `sleep` that follows it, becomes
    a `Write(pin, level, holdMs)` entry of a trace.
  - The cross-thread flag `stop_thread` becomes an input, `stops[i]`: its value
    when it is checked before symbol `i`.
  - The LED pin is a parameter restricted to 7, 11 and 13.

  `PlayMorse` is proved equal to `PlayTrace`. `PlayTrace` is the three resets,
  then one write per symbol up to the first set flag.

`wrappers.dfy` (module `Wrappers`) holds the `Option` and `Result` types.

Where the source's comments and its code differ, the model follows the code:
- The comment before `encode_morse` speaks of a dash of three units. The code
  holds a dash for `sleep(1)` against `sleep(.3)` for a dot.
- The loop in `playMorse` issues no write after its last symbol. A run ends LOW
  only because every encoding ends with a three-space gap
  (`Playback.EncodedPlayback`).

## Model

| member | source | states |
|---|---|---|
| Morse.EncodeMorse | morse_keyboard.py:33-57 | the loop returns exactly `Encoded(message)`: the concatenated contributions, or the KeyError of the first unknown character |
| Morse.Upper | morse_keyboard.py:51 | the result is never a lower-case ASCII letter, and only lower-case letters are changed |
| Morse.EncodeChar | morse_keyboard.py:49-55 | one character's contribution ends with the three-space letter gap, and a refused character fails with the KeyError of its uppercase form, which is not a space and has no table entry |
| Morse.MorseCode | morse_keyboard.py:37-45 | `morse_dict[key]`: an entry is found only for one of the 43 table keys |
| Morse.LetterCode | morse_keyboard.py:37-41 | the letter entries of `morse_dict`: only the capitals `A`-`Z` have one |
| Morse.DigitCode | morse_keyboard.py:42-43 | the digit entries of `morse_dict`: only `0`-`9` have one |
| Morse.PunctuationCode | morse_keyboard.py:44-45 | the punctuation entries of `morse_dict`: only the seven marks have one |
| Morse.EncodeWith | morse_keyboard.py:49-57 | the loop of `encode_morse` for a given per-character step: it succeeds only when every step succeeds |
| Morse.Encoded | morse_keyboard.py:33-57 | the value `encode_morse` returns or the KeyError it raises; the error names a character that is neither a space nor an ASCII lower-case letter and has no table entry |
| Morse.UpperIdempotent | morse_keyboard.py:51 | uppercasing twice is uppercasing once |
| Morse.EncodableIff | morse_keyboard.py:51-55 | a character is accepted iff it is a space or its uppercase form is a table key; otherwise it raises KeyError of its uppercase form |
| Morse.EncodeEmpty | morse_keyboard.py:35-57 | the empty message encodes to the empty string |
| Morse.EncodeSingle | morse_keyboard.py:49-55 | one character contributes its code plus three spaces, or seven spaces for a space, or raises KeyError of its uppercase form |
| Morse.EncodeStep | morse_keyboard.py:49-55 | one more character extends the encoding by exactly that character's contribution |
| Morse.EncodeConcat | morse_keyboard.py:49-57 | `encode(a + b) == encode(a) + encode(b)`, with the first error winning |
| Morse.EncodeWithConcat | morse_keyboard.py:49-57 | the same distribution over concatenation holds for the loop with any per-character step |
| Morse.JoinAssociative | morse_keyboard.py:53-55 | appending contributions in sequence is associative, errors included |
| Morse.EncodedOkIff | morse_keyboard.py:37-55 | encoding succeeds iff every character of the message is accepted |
| Morse.EncodeWithOkIff | morse_keyboard.py:49-55 | the loop with any step succeeds iff every step succeeds |
| Morse.EncodeErrorIsFirstUnknown | morse_keyboard.py:49-53 | a failure is the KeyError of the first unaccepted character, uppercased, and every earlier character is accepted |
| Morse.EncodeWithFirstError | morse_keyboard.py:49-55 | the loop with any step fails with the error of its first failing step |
| Morse.EncodeCaseInsensitive | morse_keyboard.py:50-51 | two messages whose characters agree up to case encode alike |
| Morse.EncodeWithAgree | morse_keyboard.py:49-55 | messages whose characters give the same steps give the same loop result |
| Morse.EncodeUpperString | morse_keyboard.py:50-51 | `encode_morse(m) == encode_morse(m.upper())` |
| Morse.TableKeys | morse_keyboard.py:37-45 | the dictionary's keys are exactly the 26 capitals, the 10 digits and `, . ? / - ( )` |
| Morse.LetterCodeTotal | morse_keyboard.py:37-41 | every capital letter has an entry |
| Morse.DigitCodeTotal | morse_keyboard.py:42-43 | every digit has an entry |
| Morse.PunctuationCodeKeys | morse_keyboard.py:44-45 | the punctuation entries are exactly the seven marks |
| Morse.TableCharEncodable | morse_keyboard.py:37-51 | letters of either case, digits and the seven marks are all accepted |
| Morse.LetterCodesWellFormed | morse_keyboard.py:37-41 | every letter's code is dots and dashes separated by single spaces |
| Morse.DigitCodesWellFormed | morse_keyboard.py:42-43 | every digit's code is dots and dashes separated by single spaces |
| Morse.PunctuationCodesWellFormed | morse_keyboard.py:44-45 | every mark's code is dots and dashes separated by single spaces |
| Morse.TableWellFormed | morse_keyboard.py:37-45 | every entry is non-empty, starts and ends with a dot or dash, and alternates them with single spaces |
| Morse.CodeSymbolsFrom | morse_keyboard.py:37-45 | a well-formed code, from any mark on, holds only dots, dashes and spaces |
| Morse.CodeSymbols | morse_keyboard.py:37-45 | a well-formed code holds only dots, dashes and spaces |
| Morse.EncodeCharSymbols | morse_keyboard.py:51-55 | one accepted character contributes only dots, dashes and spaces |
| Morse.EncodedSymbols | morse_keyboard.py:49-57 | a successful encoding holds only dots, dashes and spaces |
| Morse.EncodedEndsWithGap | morse_keyboard.py:53-55 | a successful encoding of a non-empty message ends with three spaces |
| Morse.SosExample | morse_keyboard.py:33-57 | `SOS` encodes to `. . .   - - -   . . .   ` |
| Morse.SosSpelledOut | morse_keyboard.py:53 | helper: the three contributions of `SOS` spell the expected string |
| Morse.LowerSosExample | morse_keyboard.py:51 | `sos` encodes like `SOS` |
| Morse.UnknownExample | morse_keyboard.py:53 | `a§b` raises KeyError for `§`: the unknown character is not skipped |
| InputBuffer.Content | morse_keyboard.py:285 | `label[:-1]` of a valid label is one shorter than it and at most twelve characters long |
| InputBuffer.InitialLabel | morse_keyboard.py:123 | the starting label `"_"` satisfies the label invariant, content of at most twelve characters then the cursor, with empty content |
| InputBuffer.KeyText | morse_keyboard.py:373-374 | `space` inserts a space and every other key inserts its own name, so exactly `space` and the single-character names insert one character |
| InputBuffer.Pressed | morse_keyboard.py:371-380 | a one-character key keeps the label valid and appends its text to the content unless twelve characters are held |
| InputBuffer.Backspaced | morse_keyboard.py:359-365 | keeps the label valid and drops the last content character, leaving empty content as it is |
| InputBuffer.PressThenBackspace | morse_keyboard.py:359-380 | a press that fits followed by a backspace restores the label |
| InputBuffer.OneCharKeysPrefix | morse_keyboard.py:371-378 | helper: a prefix of one-character key presses is again one-character |
| InputBuffer.TextsLength | morse_keyboard.py:373-378 | one-character keys insert one character each, `space` included |
| InputBuffer.PressedPrefix | morse_keyboard.py:376-378 | one press extends the content as the typed text cut at twelve characters |
| InputBuffer.PressAllStep | morse_keyboard.py:376-378 | one further press keeps the content equal to the typed text cut at twelve characters |
| InputBuffer.PressAllContent | morse_keyboard.py:376-378 | after any presses the content is the typed text cut at twelve characters: later presses are ignored |
| InputBuffer.PressAllLength | morse_keyboard.py:376-378 | after `n` presses the content holds `min(12, before + n)` characters |
| InputBuffer.ThirteenPressesKeepTwelve | morse_keyboard.py:376 | thirteen presses into the initial label leave twelve content characters |
| InputBuffer.BackspacesUndoPresses | morse_keyboard.py:359-380 | `n` backspaces after presses that all fit undo the last `n` presses |
| InputBuffer.PressAllFits | morse_keyboard.py:371-378 | presses that all fit keep the label valid and append exactly the typed text to the content |
| InputBuffer.BackspaceTimesContent | morse_keyboard.py:359-363 | `n` backspaces on a label holding at least `n` content characters drop exactly the last `n` |
| InputBuffer.SameContentSameLabel | morse_keyboard.py:359-380 | helper: two valid labels with the same content are the same label |
| InputBuffer.ReplayValid | morse_keyboard.py:359-380 | from `"_"`, any presses of one-character keys and backspaces keep the label ending in `_` with at most twelve content characters |
| InputBuffer.App.constructor | morse_keyboard.py:116-123 | the label starts as `"_"` with empty content, and there is no encoded message |
| InputBuffer.App.ButtonPress | morse_keyboard.py:371-380 | the label becomes `Pressed(old label, letter)`, and a one-character key keeps it valid and appends unless full; the encoded message is untouched |
| InputBuffer.App.BackspacePress | morse_keyboard.py:359-365 | the label becomes `Backspaced(old label)`: the last content character goes, or nothing changes on empty content |
| InputBuffer.App.SubmitPress | morse_keyboard.py:281-285 | encodes `label[:-1]`, leaves the label unchanged, and stores the encoding only on success |
| Keys.ValidKeys | morse_keyboard.py:16-21 | `VALID_KEYS`: 72 entries, the last three being `shift`, `space` and `<---` |
| Keys.PunctuationKeysShape | morse_keyboard.py:16 | the punctuation entries of `VALID_KEYS` are single table characters |
| Keys.UpperKeysShape | morse_keyboard.py:16-18 | the capital-letter entries are single table characters |
| Keys.DigitKeysShape | morse_keyboard.py:18 | the digit entries are single table characters |
| Keys.LowerKeysShape | morse_keyboard.py:19-21 | the lower-case entries are single table characters |
| Keys.ButtonKeyShape | morse_keyboard.py:16-21 | every entry other than `shift` and `<---` is `space` or a single table character |
| Keys.ButtonKeyEncodable | morse_keyboard.py:13-21 | every enabled key wired to `buttonPress` inserts one character that the encoder accepts |
| Keys.EnabledOneChar | morse_keyboard.py:16-21 | events from enabled keys press one-character keys only |
| Keys.AppendEncodable | morse_keyboard.py:378 | appending accepted text to accepted content gives accepted content |
| Keys.PrefixEncodable | morse_keyboard.py:363 | helper: dropping characters from the end keeps the content accepted |
| Keys.PressEncodable | morse_keyboard.py:371-380 | pressing an accepted one-character key keeps the label valid and its content accepted |
| Keys.BackspaceEncodable | morse_keyboard.py:359-365 | a backspace keeps the label valid and its content accepted |
| Keys.ApplyEncodable | morse_keyboard.py:359-380 | any enabled key event keeps the label valid and its content accepted |
| Keys.EnabledEventsContent | morse_keyboard.py:359-380 | from `"_"`, enabled key events keep the label valid and every content character accepted |
| Keys.EnabledKeysSubmitEncodes | morse_keyboard.py:13-21 | after any enabled key events, submitting encodes without KeyError |
| Playback.FirstStop | morse_keyboard.py:314-317 | the number of symbols before the first check that finds the flag set: every earlier flag is clear, and this one is set unless the end is reached |
| Playback.ResetWrites | morse_keyboard.py:309-311 | three LOW writes with no hold, on LED pins only, and every LED pin is switched off |
| Playback.SymbolWrites | morse_keyboard.py:318-334 | one write for a dot, a dash or a space and none for any other character, on the chosen pin, lighting the LED exactly for a dot or a dash |
| Playback.Played | morse_keyboard.py:314-334 | the symbol loop without a stop: at most one write per character of the message |
| Playback.FirstStopUnique | morse_keyboard.py:314-317 | that number is the only index with all earlier flags clear and its own set |
| Playback.PlayMorse | morse_keyboard.py:303-334 | the trace is the three resets, then the writes of the symbols before the first stop |
| Playback.PlayTrace | morse_keyboard.py:308-334 | the trace is the three resets followed by one write per symbol played before the first stop, every one of them on the chosen pin |
| Playback.PlayedStep | morse_keyboard.py:314-334 | a prefix one symbol longer adds that symbol's writes |
| Playback.AppendSymbol | morse_keyboard.py:318-334 | adding one symbol's writes to the trace so far gives the trace for the longer prefix |
| Playback.TraceStartsWithReset | morse_keyboard.py:308-311 | every trace starts with LOW on pins 7, 11 and 13 |
| Playback.StopAtOnce | morse_keyboard.py:314-317 | a flag set at the first check leaves only the reset writes |
| Playback.StopPlaysPrefix | morse_keyboard.py:314-317 | a stop before symbol `k` plays exactly the first `k` symbols and then nothing |
| Playback.NoStopPlaysAll | morse_keyboard.py:314-334 | a flag clear throughout plays every symbol |
| Playback.PlayedConcat | morse_keyboard.py:314-334 | the run over `a + b` is the run over `a`, then the run over `b` |
| Playback.PlayedWrites | morse_keyboard.py:318-334 | one write per dot, dash or space and none for other characters, all on the chosen pin |
| Playback.PlayedSymbols | morse_keyboard.py:318-334 | over a string of symbols, write `j` is `.` → HIGH 300 ms, `-` → HIGH 1000 ms, space → LOW 300 ms for character `j` |
| Playback.PlayedEndsLow | morse_keyboard.py:330-334 | a run over a string ending in a space ends with a LOW write |
| Playback.EncodedPlayback | morse_keyboard.py:303-334 | an uninterrupted run over the encoding of a non-empty message is 3 + its length writes, all after the resets on the chosen pin, ending LOW |
| Playback.SPlayback | morse_keyboard.py:318-334 | the code of `S` with its letter gap plays as three HIGH 300 ms flashes, each followed by LOW 300 ms, then two more LOW gaps |
| Playback.OPlayback | morse_keyboard.py:318-334 | the code of `O` with its letter gap plays as three HIGH 1000 ms flashes, each followed by LOW 300 ms, then two more LOW gaps |
| Playback.SosPlayback | morse_keyboard.py:318-334 | the whole encoding of `SOS` plays as the writes of `S`, then of `O`, then of `S` |

## Left out

- The GUI is left out. This covers the window, the frames, `KeyboardButton`, `ShiftButton`, `createKeyboard`, `shiftPress`, `on_closing` and `check`. It also covers every `configure`/`update` call on `text_box` and `led_button`. These only place widgets and colour them.
- GPIO hardware is left out. The `RPi.GPIO` setup and cleanup have no model. Each `GPIO.output` call in `playMorse` is a trace entry.
- Time is left out. Each `sleep` becomes the `holdMs` of the write before it, in milliseconds rather than seconds as a float. The reset writes are followed by no sleep and carry 0.
- Threading in `submitPress` is left out. This covers the busy-wait on `threading.active_count()` with its one-second deadline, the toggling of `stop_thread` and the daemon thread that runs `playMorse`. `InputBuffer.App.SubmitPress` models the encoding step only. The flag's value at each check is the `stops` input of `Playback.PlayMorse`.
- The random choices in `playMorse` are left out. The colour is dropped. The pin is a parameter required to be 7, 11 or 13.
- Morse.Upper: only ASCII `a`–`z` are uppercased. Python's `str.upper` also maps other characters: `ſ` becomes `S` and `ß` becomes `SS`. For such characters the model raises `KeyError` with the character itself, where Python may encode them, raise `KeyError` with their upper-case form or raise `KeyError` with a two-character key. The most common case is a non-ASCII lower-case letter: `é` fails with `KeyError('é')` in the model and with `KeyError('É')` in Python.
- Morse.MorseCode: the dictionary literal is a lookup function. It is split into letter, digit and punctuation groups with the same 43 entries.
- Keys.ValidKeys: the list literal is written as five runs. Joined, they give the same 72 entries in the same order.
- InputBuffer.App.ButtonPress: a key name longer than one character can push the label past thirteen characters. The method promises validity only for one-character keys, which are the only ones `createKeyboard` wires to it.
- InputBuffer.App.SubmitPress: Python raises `KeyError` out of the Tk callback. The model returns it as `Err` and leaves `encodedMessage` unchanged, as the failed assignment does.
