# RGB reader for coffee roasts — payload parser and colour swatch

`leitor_rgb.py` is a small Tkinter window that reads one line from a
serial-attached colour sensor and shows the reading. This project models the
part of its `ler_dados` handler that turns the line into what the window
shows:

1. the line is stripped of surrounding whitespace (`str.strip()`);
2. it is split on `;` (`str.split(';')`, empty fields kept);
3. anything other than exactly three fields is the "Dados no formato
   incorreto." error;
4. each field is converted with `int()`; a field `int()` rejects raises, and
   the catch-all handler reports it;
5. on success the label text is `R: {r} | G: {g} | B: {b}` and the swatch
   colour is `#{r:02x}{g:02x}{b:02x}`.

The whole step is one pure function, `LeitorRgb.ParseReading`, from the
decoded line to an `Outcome`: either `Ok(Reading(r, g, b, labelText, colour))`
or `Err(WrongFieldCount)` / `Err(ConversionFailed)`. No outcome carries a label
or colour without all three channels, which matches the source: all three
conversions finish before the first widget update.

Files:

- `text.dfy` (module `Text`): Python's whitespace class, `strip`, `split`
  with an explicit separator, and the `join` that undoes it.
- `numerals.dfy` (module `Numerals`): digit strings in bases 2 to 16,
  `str(n)`, `format(n, '0Nx')`, and a left-to-right scanner for the decimal
  literals `int()` accepts, proved equal to a declarative grammar.
- `leitor_rgb.dfy` (module `LeitorRgb`): the outcome types, `ParseReading`,
  the label and colour strings, and the properties.

`int()` is modelled more closely than "digits with an optional minus". It
skips surrounding whitespace, so `" 45 "` converts. It takes an optional
`+` or `-` sign. It accepts single underscores between digits, as in
`1_000`. Its whitespace is not quite `strip`'s. The four information
separators U+001C to U+001F are whitespace to `str.isspace`, so `strip`
removes them from the ends of the line. To `int()` they are neither
whitespace nor part of a literal, so one anywhere in a field makes the
conversion fail. A line such as `"1\x1f;2;3"` is therefore a conversion
error. `format(n, '02x')` is modelled with its sign: a negative channel
gives `-` followed by its hexadecimal digits.

## Model

| member | source | states |
|---|---|---|
| `Text.IsSpace` | leitor_rgb.py:22 | Python's `str.isspace` for one character: what `strip()` removes. It is a fixed table (see "Left out"). |
| `Text.StripLeft` | leitor_rgb.py:22 | The result is a suffix of the input. Everything cut off is whitespace, and the result does not start with whitespace. |
| `Text.StripRight` | leitor_rgb.py:22 | The result is a prefix of the input. Everything cut off is whitespace, and the result does not end with whitespace. |
| `Text.Strip` | leitor_rgb.py:22 | The result neither starts nor ends with whitespace. |
| `Text.StripIsTrim` | leitor_rgb.py:22 | What `strip` returns is a contiguous piece of the line, and everything before and after that piece is whitespace. |
| `Text.StripPadded` | leitor_rgb.py:22 | Whitespace added on either side of a line does not change what `strip` returns. |
| `Text.StripUnpadded` | leitor_rgb.py:22 | A line that neither starts nor ends with whitespace is returned unchanged. |
| `Text.StripIdempotent` | leitor_rgb.py:22 | Stripping twice gives the same result as stripping once. |
| `Text.Split` | leitor_rgb.py:23 | There is one field more than there are `;` characters, and empty fields are kept. No field contains the separator. Joining the fields with the separator gives the line back. |
| `Text.SplitJoin` | leitor_rgb.py:23 | Splitting undoes joining whenever no field contains the separator. Together with `Split`'s join guarantee, split and join are inverses. |
| `Numerals.Decimal` | leitor_rgb.py:27 | `str(n)` is never empty. It starts with `-` exactly when `n` is negative, and every other character is a decimal digit. After the sign there is no leading zero, except in `0` itself. With `ParseDecimal`, which shows that `int()` reads it back as `n`, this determines the text exactly. |
| `Numerals.Digits` | leitor_rgb.py:27-29 | The digits that `str(n)` and `format(n, 'x')` write are never empty and are lower case. A leading zero appears only for 0, whose digits are exactly `0`. Read back in the same base, they give `n`. |
| `Numerals.LeadingZeros` | leitor_rgb.py:29 | Zero padding does not change the value of a digit string. |
| `Numerals.HexDigitCount` | leitor_rgb.py:29 | A number has one hexadecimal digit exactly when it is below 16, and at most two exactly when it is below 256. |
| `Numerals.FormatHex` | leitor_rgb.py:29 | `format(n, '0{w}x')` is at least `w` characters long and never empty. It starts with `-` exactly when `n` is negative. `FormatHexNonNegative` and `HexByte` give its digits and value. |
| `Numerals.FormatHexNonNegative` | leitor_rgb.py:29 | For `n >= 0`, `format(n, '0{w}x')` is `max(w, digit count)` characters long. All its characters are lower-case hex digits, and it reads back as `n`. The width is never a truncation. |
| `Numerals.FormatHexNegative` | leitor_rgb.py:29 | For `n < 0`, the text starts with `-`, which is not a hex digit. |
| `Numerals.HexByte` | leitor_rgb.py:29 | `{c:02x}` is exactly two lower-case hex digits if and only if `0 <= c < 256`, and those digits read back as `c`. From 256 on it has at least three characters. |
| `Numerals.ScanDigitsCorrect` | leitor_rgb.py:26 | The left-to-right scanner accepts exactly the decimal digit groups defined by the declarative grammar, and it returns their value. |
| `Numerals.IsInfoSeparator` | leitor_rgb.py:26 | U+001C to U+001F, the characters `strip` treats as whitespace and `int()` rejects. |
| `Numerals.InfoSeparatorIsSpace` | leitor_rgb.py:22-26 | Each information separator is whitespace to `strip`, yet is no digit, sign or underscore. So `int()` can accept it neither as whitespace nor as part of a literal. |
| `Numerals.ParseInt` | leitor_rgb.py:26 | `int(s)` fails on blank text and on text holding any of U+001C to U+001F. `ParseIntCorrect` gives the full characterisation. |
| `Numerals.ParseIntCorrect` | leitor_rgb.py:26 | `int(s)` succeeds if and only if `s` holds no character U+001C to U+001F and, once stripped, is an optional sign followed by digit groups. On success it returns that literal's value. |
| `Numerals.ParseDecimal` | leitor_rgb.py:26-27 | `int(str(n)) == n` for every integer, negative ones included. The Python length limit on integer text (see "Left out") is not modelled. |
| `LeitorRgb.Label` | leitor_rgb.py:27 | The label is the three decimal texts plus 15 fixed characters, and it starts with `R: `. `LabelInjective` shows that it determines the channels. |
| `LeitorRgb.Colour` | leitor_rgb.py:29 | The colour starts with `#` and is at least seven characters long. `ColourWellFormed` and `ColourRoundTrip` give its form and value within 0..255. |
| `LeitorRgb.ParseReading` | leitor_rgb.py:22-31 | The format error occurs exactly when the stripped line does not contain exactly two `;`. A successful reading always carries the label and colour of its own channels. |
| `LeitorRgb.Convert` | leitor_rgb.py:25-31 | The format error occurs exactly when there are not three fields. A successful reading carries its own label and colour. |
| `LeitorRgb.ParseReadingFields` | leitor_rgb.py:23-36 | Cut the stripped line at its two separators. The reading succeeds if and only if `int()` accepts all three pieces (no U+001C to U+001F, and an integer literal once stripped). Its channels are then the literals' values. Otherwise the conversion error is reported, with no label or colour. |
| `LeitorRgb.InfoSeparatorRejected` | leitor_rgb.py:22-36 | A field holding any of U+001C to U+001F makes the reading fail with the conversion error. Neither `strip` nor `split` removes such a character from inside the line. |
| `LeitorRgb.PaddingIgnored` | leitor_rgb.py:22 | Whitespace around the line, such as a trailing `\r\n`, does not change the outcome. |
| `LeitorRgb.PayloadRoundTrip` | leitor_rgb.py:22-29 | For any integers r, g, b, the line `str(r);str(g);str(b)` parses back to exactly (r, g, b), with any surrounding whitespace. It comes with its label and colour. |
| `LeitorRgb.ColourWellFormed` | leitor_rgb.py:29 | The colour is a seven-character lower-case `#rrggbb` if and only if all three channels are in 0..255. |
| `LeitorRgb.ColourRoundTrip` | leitor_rgb.py:29 | For channels in 0..255, characters 1-2, 3-4 and 5-6 of the colour, read as hex, give r, g and b. |
| `LeitorRgb.ColourInjective` | leitor_rgb.py:29 | Within 0..255, different readings never share a colour string. |
| `LeitorRgb.ColourWide` | leitor_rgb.py:25-29 | The colour is never shorter than seven characters. Any channel of 256 or more makes it at least eight, because `02x` is a minimum width and no range check is made. |
| `LeitorRgb.ColourAmbiguousOutOfRange` | leitor_rgb.py:25-29 | Without a range check, (0x111, 0x11, 0x11) and (0x11, 0x111, 0x11) both give `#1111111`. |
| `LeitorRgb.LabelInjective` | leitor_rgb.py:27 | Two readings with the same label text have the same channels. |
| `LeitorRgb.Example120` | leitor_rgb.py:22-29 | `"120;45;200\r\n"` gives (120, 45, 200), the label text for those channels and the colour `#782dc8`. |
| `LeitorRgb.ExampleTwoFields` | leitor_rgb.py:23-31 | `"1;2"` has two fields and gives the format error. |
| `LeitorRgb.ExampleEmptyField` | leitor_rgb.py:23-36 | `"1;;2"` has three fields, one of them empty. It therefore reaches the conversion, which fails. |
| `LeitorRgb.ExampleUnitSeparator` | leitor_rgb.py:22-36 | `"1\x1f;2;3"` keeps its unit separator through `strip`, and `int()` rejects the first field, so the outcome is the conversion error. |

## Left out

- Serial I/O: port enumeration in `listar_portas` (leitor_rgb.py:9-11), opening the port at 9600 baud, the 2-second settle, `readline` and `close` (leitor_rgb.py:15-22, 33). These are hardware and library calls. The model starts from the line already read.
- UTF-8 decoding of the raw bytes (leitor_rgb.py:22): the input is an already-decoded string. A decoding error would take the same catch-all path as a conversion failure.
- The Tkinter widgets (leitor_rgb.py:48-107) and the two `config` updates (leitor_rgb.py:27, 29): the model returns the label text and the colour string instead of setting them.
- The error dialogs (`messagebox.showerror`, leitor_rgb.py:31, 36): only which of the two failures occurs is modelled, not the message text.
- Whether Tk accepts the colour string: Tk's colour parser is foreign code. A channel outside 0..255 gives a string that is not `#rrggbb` (`ColourWellFormed`, `ColourWide`). The source passes it on unchecked. What Tk then does is outside the model: it may raise inside the same `try`, after the label has been updated, and skip `ser.close()`.
- The thread and button handling in `iniciar_leitura` (leitor_rgb.py:39-46): this is concurrency and a fixed 3-second sleep, with no contract to state.
- Palette nearest-match, JSON palette storage and CSV history: they belong to other versions of the tool and do not appear in `leitor_rgb.py`. Those versions also use `,` as the separator; this file uses `;` only.
- Numerals.ParseInt: accepts only ASCII digits, not the other Unicode decimal digits that `int()` takes. On a field written with such digits, the source gives a reading and the model gives `ConversionFailed`.
- Numerals.ParseInt: has no length limit. Current Python rejects integer text of more than 4300 digits (CPython releases since September 2022: 3.11, and 3.7.14 to 3.10.7). On such a field, the source gives the conversion error and the model gives a reading. For the same reason, `ParseDecimal`'s `int(str(n)) == n` holds in those versions only up to 4300 digits, because in those releases `str(n)` itself raises beyond that.
- Text.IsSpace: covers the code points `str.isspace` accepts in current Python (ASCII whitespace, U+001C to U+001F, U+0085, U+00A0 and the Unicode space separators). It is a fixed table, not the Unicode database.
