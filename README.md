# App Informes: field extraction and balance-sheet criteria, in Dafny

App Informes is a small web service. It receives PDF balance sheets written
in Spanish and gets each document's text, either as native text or by OCR.
It then finds ten amounts in that text by their labels (`Activo Corriente`,
`Pasivo Corriente`, `Riesgo`, …). Each amount is written with `.` for
thousands and `,` for decimals, and becomes an exact decimal. From the ten
amounts the service computes six criteria: three ratios, the share of
equity in total assets, and two flags. It answers with one entry per
uploaded file.

This project models that core and proves what it does:

- `wrappers.dfy`: `Option`.
- `text.dfy`: the string operations the code uses. These are Python's
  `str.isspace`, `strip` and `replace`, and the case folding that
  `re.IGNORECASE` applies to the letters of the labels. It also has a
  count of occurrences, which only the model's reference reading of
  amounts uses.
- `decimals.dfy`: the part of Python's `decimal` that the code relies on.
  - A decimal is a coefficient and a count of fraction digits.
  - `Decimal(str)` is modelled for unsigned literals.
  - `quantize(Decimal("0.01"))` is modelled under the default context,
    which rounds half to even.
- `patterns.dfy`: the regular expressions `extract_values` builds, that is
  a label followed by `\s*[:\-\–]?\s*([\d\.,]+)`. Both label shapes of the
  field table have their own matcher:
  - words separated by `\s+`;
  - parts separated by the lazy `.*?`, where `.` does not cross a line.

  `search` is modelled as the least start position at which the whole
  pattern matches. The lazy gap takes the least length from which the
  rest still matches.
- `parsing.dfy`: `helpers/parsing.py`.
  - The field table.
  - `_to_decimal`, with an independent reading of Spanish amounts and a
    printer that it inverts.
  - `extract_values`, both as a specification function and as the
    imperative double loop of the source, proved equal.
- `app.dfy`: `main.py`.
  - The `InformeData` record and the criteria arithmetic.
  - One pass of the `upload` loop as a function of the file, including
    the failure of `pdftotext`.
  - The loop itself, as a method proved against that function.

Behaviour the model follows from the code, where a natural reading of the
service's purpose would expect otherwise:

- Amounts have no sign. The group `[\d\.,]+` has no `-`. A minus right
  after the label, with no other separator before it, is taken as the
  separator and the amount is read without it
  (`Patterns.MinusIsSeparator`). A minus after another separator, as in
  `Riesgo: -5` or `Resultado antes de impuestos: -1.234,56`, blocks that
  occurrence of the label altogether (`Patterns.SignAfterSeparatorBlocks`,
  `Parsing.NegativeAfterColonMissing`). Unless a later occurrence has an
  amount, the field is missing and the whole extraction is empty.
- A separator outside the class `[:\-\–]`, such as `=`, also blocks the
  occurrence, since the group cannot start on it. The table's own comment
  gives `Inversiones grupo C/P = 123.456,78` as the form of `inversiones_cp`.
  Neither of its labels is found in that text
  (`Parsing.CommentExampleNotFound`), so a document written that way gets
  "Faltan importes en el PDF".
- A label occurrence with no numeral after it is skipped. `search` goes on
  to a later occurrence (`Parsing.RiesgoWithoutAmountSkipped`). When there
  is none, the field is missing.
- Ratios are rounded half to even: `quantize` under the default decimal
  context. Half away from zero is not used.
- Two failures are not reported for the one file they happen in. Each
  raises out of the handler and ends the whole request (`App.RaisesIff`,
  `App.Run`):
  - a zero `pasivo_corriente` or `riesgo`, through the division;
  - a `pdftotext` that exits with an error. `pdf_to_text` runs it with
    `check=True`, and the call at `main.py` line 57 is outside any `try`.
- Non-current assets are never extracted, so total assets are the current
  assets (`App.ExtractedTotalActivo`). Nothing marks this fallback.
- The "Formatos inválidos" entry cannot occur. The dictionary
  `extract_values` returns always builds the record
  (`App.NeverInvalidFormats`).

## Model

| member | source | states |
|---|---|---|
| Parsing.KeysDistinct | helpers/parsing.py:6-22 | the table has ten entries and no two of them share a key |
| Parsing.FieldLabels | helpers/parsing.py:6-22 | `_FIELD_LABELS`: the ten keys in declaration order, each with its labels in the order they are tried; `Parsing.KeysDistinct` and `Parsing.NoActivoNoCorriente` state its shape |
| Parsing.NoActivoNoCorriente | helpers/parsing.py:6-22 | `activo_no_corriente` is not a key of the table |
| Parsing.TableWordsStartWithLetters | helpers/parsing.py:7-21 | every word of a `\s+`-separated label of the table starts with ASCII letters, so none starts with a class that matches whitespace |
| Text.IsSpace | helpers/parsing.py:39 | the characters `\s` matches and `strip()` removes, which are those for which Python's `str.isspace` holds; `Patterns.SkipSpace` and `Text.StripEmptyIff` are stated with it |
| Text.Fold | helpers/parsing.py:39 | the form under which `re.IGNORECASE` compares characters: a newline and the lower-case ASCII letters stay as they are, each upper-case ASCII letter and `Í` go to their lower-case letters, and the listed variants go to `i`, `s` and `k`; every other character, `Ñ` among them, stays as it is; `Patterns.SpaceNotLetter` shows no whitespace folds onto a letter |
| Text.Strip | helpers/parsing.py:26 | `str.strip()`: whitespace removed at both ends; `Text.StripUnchanged` and `Text.StripEmptyIff` state what the code relies on |
| Text.TrimStart | helpers/parsing.py:26 | the leading half of `strip()`: what is removed is all whitespace and what is left is a suffix that does not start with whitespace |
| Text.TrimEnd | helpers/parsing.py:26 | the trailing half of `strip()`: what is removed is all whitespace and what is left is a prefix that does not end with whitespace |
| Text.StripUnchanged | helpers/parsing.py:26 | a string that neither starts nor ends with whitespace, such as every captured token, is left as it is |
| Text.StripEmptyIff | main.py:59 | `not text.strip()` holds exactly when the text is only whitespace |
| Text.Delete | helpers/parsing.py:26 | `replace(".", "")`: every occurrence of the character removed and the rest kept in order; `Text.DeleteAppend` and `Parsing.NormaliseToken` state its effect on tokens |
| Text.Replace | helpers/parsing.py:26 | `replace(",", ".")`: every occurrence of one character swapped for the other and the rest kept in order; `Text.ReplaceAppend` and `Text.ReplaceAbsent` state its effect |
| Parsing.Normalise | helpers/parsing.py:26 | the dots deleted and the commas turned into points, in that order; `Parsing.NormaliseToken` shows a token then holds only digits and points |
| Parsing.ToDecimal | helpers/parsing.py:25-27 | `_to_decimal`: the token stripped, its dots deleted, its commas turned into points and the result parsed, with none where `Decimal` raises; `Parsing.ToDecimalToken`, `Parsing.ToDecimalTokenIff` and `Parsing.FormatRoundTrip` state what it computes |
| Decimals.ParseLiteral | helpers/parsing.py:27 | `Decimal(s)` for an unsigned literal, surrounding whitespace ignored; `Parsing.ParseLiteralPoint` and `Parsing.ParseLiteralDigits` state what it computes |
| Decimals.ParseUnsigned | helpers/parsing.py:27 | digits, an optional point and digits, with a digit somewhere, read as a coefficient and the number of fraction digits; anything else fails |
| Parsing.ToDecimalToken | helpers/parsing.py:25-27 | on every captured token, `_to_decimal` agrees with the independent reading `SpanishAmount`: dots are thousands separators, one comma splits whole part from fraction |
| Parsing.ToDecimalTokenIff | helpers/parsing.py:25-27 | a token converts if and only if it has a digit and at most one comma; otherwise `Decimal` raises |
| Parsing.ToDecimalNoComma | helpers/parsing.py:25-27 | a token without a comma reads as the whole number its digits spell, and fails when it has no digit |
| Parsing.ToDecimalComma | helpers/parsing.py:25-27 | a token with a comma reads as the digits before it plus those after it, with the count of the latter as the scale; it fails with a second comma |
| Parsing.SpanishAmountIff | helpers/parsing.py:25-27 | the reference reading is defined exactly when the amount has a digit and at most one comma |
| Parsing.FormatRoundTrip | helpers/parsing.py:24-27 | printing any decimal with `.` thousands groups and a `,` before its fraction digits gives a token that `_to_decimal` reads back to the same coefficient and scale |
| Parsing.ToDecimalExample | helpers/parsing.py:24-27 | `"1.234.567,89"` reads as `Dec(123456789, 2)`, whose value is 1234567.89 |
| Parsing.ParseLiteralPoint | helpers/parsing.py:27 | `Decimal` reads digits, a point and digits as the number they spell, with the fraction's length as the scale, and fails when what follows the point is not all digits |
| Parsing.ParseLiteralDigits | helpers/parsing.py:27 | `Decimal` reads a string of digits as the whole number it spells, and fails on the empty string |
| Decimals.IntOfAppend | helpers/parsing.py:27 | reading two digit strings one after the other shifts the first by the length of the second |
| Decimals.Value | helpers/parsing.py:25-27 | the number a coefficient and a scale stand for, never negative; it is the value of every amount because no token carries a sign: `Patterns.IsToken` admits only digits, dots and commas, and `Parsing.NormaliseToken` and `Parsing.ToDecimalToken` show `_to_decimal` then reads an unsigned literal |
| Decimals.ValueZeroIff | main.py:92-95 | a decimal is zero exactly when its coefficient is, which is what the divisions test |
| Patterns.Tail | helpers/parsing.py:39 | the group after a label is a non-empty run of digits, dots and commas |
| Patterns.SkipSpace | helpers/parsing.py:39 | `\s*` taken greedily: the end of the run of whitespace that starts at a position |
| Patterns.NumeralEnd | helpers/parsing.py:39 | `[\d\.,]+` taken greedily: the end of the run of digits, dots and commas that starts at a position |
| Patterns.IsSeparator | helpers/parsing.py:39 | the class `[:\-\–]`: a colon, a hyphen or an en dash and nothing else, so `=` is not a separator |
| Patterns.IsNumeralChar | helpers/parsing.py:39 | the class `[\d\.,]`: an ASCII digit, a dot or a comma |
| Patterns.NumeralStart | helpers/parsing.py:39 | where the group starts after a label: past `\s*`, at most one separator and `\s*`, never before the label's end; `Patterns.TailSound` and `Patterns.TailComplete` show this is the only start any match can have |
| Patterns.TailSound | helpers/parsing.py:39 | what `Tail` captures is a match of `\s*[:\-\–]?\s*([\d\.,]+)`, and its group cannot be extended |
| Patterns.TailComplete | helpers/parsing.py:39 | every match of the tail pattern starts its group where `Tail` does, and none has a longer group, so the greedy quantifiers never give anything back |
| Patterns.MinusIsSeparator | helpers/parsing.py:39 | a `-` standing exactly at the label's end and followed directly by a digit is consumed as the separator; the group starts after it. A `-` after another separator blocks the occurrence instead (`Patterns.SignAfterSeparatorBlocks`) |
| Patterns.SignAfterSeparatorBlocks | helpers/parsing.py:39 | a `-` after a separator, with only whitespace around the separator, leaves the tail without a group, so that occurrence of the label yields nothing |
| Patterns.SpacedRest | helpers/parsing.py:7-13 | where `\s+` followed by each later word of a label ends, with `\s+` taking the whole run of whitespace; `Patterns.SpacedSound` and `Patterns.SpacedComplete` state its meaning |
| Patterns.SpacedSound | helpers/parsing.py:7-13 | what `SpacedRest` consumes is the words, each after a non-empty run of whitespace |
| Patterns.SpacedComplete | helpers/parsing.py:7-13 | when every word starts with letters, every way of matching the words, each after a non-empty run of whitespace, ends where `SpacedRest` ends, so `\s+` never gives anything back |
| Parsing.TableSpacedComplete | helpers/parsing.py:7-21 | for every `\s+`-separated label of the table, `SpacedRest` finds the one end that its later words can have |
| Patterns.LazyRest | helpers/parsing.py:17-19 | the group after the rest of a lazy label: each part after the gap `LeastGap` chooses, then the tail; a group is a non-empty run of digits, dots and commas |
| Patterns.LeastGap | helpers/parsing.py:17-19 | the lazy `.*?` stops at the least position, reached without crossing a newline, from which the rest of the label and the tail match |
| Patterns.FirstHit | helpers/parsing.py:40 | the scan stops at the least start position that yields a group, and every earlier position yields none |
| Patterns.Search | helpers/parsing.py:39-40 | `search` gives the least start position at which label and tail match, and fails exactly when they match nowhere |
| Patterns.SearchDropPart | helpers/parsing.py:17-19 | a lazy label with an extra newline-free middle part is found only where the label without that part is found too |
| Patterns.MatchAt | helpers/parsing.py:39 | the group of the whole pattern matched from one start position: the first word there, the rest of the label, then the tail; a group is a non-empty run of digits, dots and commas, and `Patterns.Search` is stated with it |
| Patterns.ClassHas | helpers/parsing.py:39 | a character class of a label matches a character when, under `re.IGNORECASE`, some member of the class and the character fold to the same character |
| Patterns.WordAt | helpers/parsing.py:39 | a word of a label matches at a position when each of its classes matches the character at the same offset |
| Parsing.RiesgoWithoutAmountSkipped | helpers/parsing.py:39-40 | in `"Riesgo N/A Riesgo 7"` the search skips the first `Riesgo` and captures `"7"` at the second |
| Parsing.NegativeAfterColonMissing | helpers/parsing.py:39-40 | in `"Riesgo: -5"` the label is found nowhere, as the `-` follows the colon |
| Parsing.CommentExampleNotFound | helpers/parsing.py:15-20 | for the text `"Inversiones grupo C/P = 123.456,78"` that the table's comment gives as an example, neither label of `inversiones_cp` is found, so the field has no token |
| Parsing.FindToken | helpers/parsing.py:36-43 | the group of the first label of a field that `search` finds, or none; `Parsing.FindTokenFirst` and `Parsing.FirstLabelWins` state its meaning |
| Parsing.FindTokenFirst | helpers/parsing.py:36-43 | the labels of a field fail exactly when none is found; otherwise the group is that of a found label before which none is found |
| Parsing.FirstLabelWins | helpers/parsing.py:36-43 | a found label decides the field once every earlier label is not found, whatever later labels would find |
| Parsing.FindFirst | helpers/parsing.py:36-43 | the inner loop over a field's labels, with its `break`, computes `FindToken` |
| Parsing.SecondInversionesLabelRedundant | helpers/parsing.py:15-20 | the two labels of `inversiones_cp` give the same outcome as the first alone |
| Parsing.GrupoCpImpliesCp | helpers/parsing.py:17-19 | wherever `Inversiones.*?grupo.*?C\/P` is found, `Inversiones.*?C\/P` is found too |
| Parsing.FieldValue | helpers/parsing.py:36-50 | a field's amount: its token read by `_to_decimal`, none when no label is found or the token does not convert |
| Parsing.Collect | helpers/parsing.py:34-51 | the outer loop over the fields, filling the dictionary in order and stopping at the first field without an amount; `Parsing.CollectMeaning` and `Parsing.CollectValues` state its meaning |
| Parsing.CollectMeaning | helpers/parsing.py:34-51 | the dictionary the outer loop fills exists if and only if every field's amount exists, and then has exactly the fields' keys |
| Parsing.CollectValues | helpers/parsing.py:47-48 | in a filled dictionary each field's key holds that field's amount |
| Parsing.Extract | helpers/parsing.py:29-51 | `extract_values` as a specification: the filled dictionary, or `{}` when a field has no amount; `Parsing.ExtractAllOrNothing` and `Parsing.ExtractValue` state its meaning |
| Parsing.ExtractAllOrNothing | helpers/parsing.py:30-51 | the result is empty or has exactly the ten keys of the table, and it is non-empty if and only if every field is found and converts |
| Parsing.ExtractValue | helpers/parsing.py:47-48 | in a non-empty result each field's key is present and holds the converted token of that field |
| Parsing.MissingFieldEmpties | helpers/parsing.py:44-46 | a field none of whose labels is found empties the result, whatever the other fields hold |
| Parsing.BadTokenEmpties | helpers/parsing.py:47-50 | a found token with no digit or with more than one comma empties the result |
| Parsing.ExtractNoActivoNoCorriente | helpers/parsing.py:6-22 | `activo_no_corriente` is never a key of the result |
| Parsing.ExtractFields | helpers/parsing.py:29-51 | the loops over fields and labels, with their early `return {}`, compute the specified dictionary |
| Parsing.ExtractValues | helpers/parsing.py:29-51 | `extract_values(text)` equals `Extract(text)` |
| App.AsDict | main.py:120 | `info.dict(by_alias=True)` has exactly the ten aliases as keys |
| App.MakeInforme | main.py:81-89 | `InformeData(**raw)` succeeds if and only if every alias is a key, and then each field holds the value under its alias |
| App.MakeInformeAsDict | main.py:83 | rebuilding the record from its own dictionary gives it back |
| App.FieldKeysAreInformeKeys | main.py:23-33 | the table's keys are exactly the record's aliases |
| App.ExtractedInforme | main.py:73-89 | a non-empty extraction always builds the record, and the record's dictionary is the extraction |
| App.ExtractedTotalActivo | main.py:99-100 | for extracted amounts non-current assets fall back to zero and total assets are current assets |
| Decimals.QuantizeCents | main.py:108-111 | the result is the only whole number of hundredths within half a hundredth of the value, with ties going to the even neighbour |
| App.Criteria | main.py:92-114 | the three ratios, the share of equity in total assets and the two flags; `App.CriteriaMeaning` states its meaning |
| App.DeudaNeta | main.py:93 | net debt: current plus non-current liabilities |
| App.ActivoNoCorriente | main.py:99 | `raw.get("activo_no_corriente", Decimal(0))`: the value under that key, or zero when it is absent |
| App.TotalActivo | main.py:100 | total assets: current assets plus `ActivoNoCorriente`; `App.ExtractedTotalActivo` shows it is current assets for every extraction |
| App.CriteriaMeaning | main.py:92-114 | liquidity is current assets over current liabilities; the cash ratio is cash minus net debt (current plus non-current liabilities) over risk; equity over risk; equity over total assets, or zero when total assets are zero; each rounded half-even to hundredths. Each flag holds exactly when its amount is strictly more than half of current assets |
| App.DocumentText | main.py:58-70 | the native text is read unless it is only whitespace; in that case the OCR text is read, and an OCR failure means there is no text |
| App.FileText | main.py:56-70 | the text a file's amounts are read from: none when `pdftotext` fails, otherwise `DocumentText` of its native text |
| App.ProcessFile | main.py:56-131 | one pass of the loop appends an entry for the file it handles, unless it raises; a failed `pdftotext` raises; `App.ProcessFileEntry` states which entry |
| App.ProcessFileEntry | main.py:56-89 | with no text from the native pass nor from OCR the entry is the OCR error with its message; with text but an empty extraction it is "Faltan importes en el PDF"; with a non-empty extraction a file that does not raise gets a success entry |
| App.NeverInvalidFormats | main.py:81-89 | no file gets the "Formatos inválidos" entry |
| App.RaisesIff | main.py:57-95 | a file raises exactly when `pdftotext` fails on it, or when all its amounts are found and its current liabilities or its risk is zero |
| App.SuccessEntry | main.py:99-131 | a successful entry's record is the extracted dictionary, its divisors are non-zero, and its share of equity is taken over current assets alone |
| App.Run | main.py:49-134 | the files handled in order, each appending its entry, until one raises; `App.RunMeaning` and `App.RunAbortedPrefix` state its meaning |
| App.RunMeaning | main.py:49-131 | the request completes if and only if no file raises, and then has one entry per file in input order; otherwise it ends at the first file that raises, every earlier file having appended its entry |
| App.RunAbortedPrefix | main.py:49-131 | once a prefix of the files has raised, later files are never handled |
| App.HandleFile | main.py:56-131 | the body of the loop, with its branches and `continue`s, computes `ProcessFile` |
| App.Upload | main.py:46-134 | the loop over the files, appending to `resultados`, returns the response `Run` specifies |

## Left out

- The FastAPI application, its routes and the redirect (main.py:16-20, 45)
  are web framework code. Pydantic validation is reduced to the lookup of
  the ten aliases (`App.MakeInforme`).
- Writing each upload to a temporary file and the `kb` size are left out.
  The size is a float division rounded with `round`.
- `pdf_to_text` (helpers/pdf_utils.py) and the OCR of page images are
  external programs. Their outcomes are inputs of the model: the native
  text or the failure of `pdftotext`, and OCR text or an OCR failure
  message. Reading the output file with `errors="ignore"` is part of that
  input.
- Python `decimal`'s 28-digit context is not modelled for any arithmetic
  operation: the divisions, the products, and also the sums and the
  difference at main.py lines 93, 94 and 100. Every result is exact before
  `quantize`. Python rounds every result that does not end within 28
  significant digits, such as the quotient of `1` by `3` at main.py line 92.
  That rounding can change the quantized hundredths only when the exact
  result lies closer to a half-hundredth than the 28th digit can tell apart.
  For amounts written with two decimals, that needs a dividend of about 25
  digits or more. `App.ExtractedTotalActivo` and `App.CriteriaMeaning`
  therefore describe Python for amounts of ordinary size only. Neither
  is the `InvalidOperation` that `quantize` raises for a result wider than
  the context modelled.
- A raising file ends the model with `Aborted(file)`. The HTTP error the
  framework then sends is not modelled, nor is the exception's type.
- The sign of a negative zero is not modelled. No token carries a sign.
- `\s` follows Python's `str.isspace` for the whole of Unicode. `\d` is
  only ASCII digits. Case folding covers ASCII letters, the `Í`/`í` pair
  and the non-ASCII characters Python's `re` folds onto `i`, `s` and `k`.
  Other non-ASCII case pairs are left out, since no label has a letter
  they fold onto.
- Decimals.ParseLiteral: literals with a sign, an exponent, underscores,
  `Infinity` or `NaN` are not accepted. No normalised token can contain
  any of them.
- The rendering of the criteria with `str` is left out. The criteria are
  kept as whole numbers of hundredths.
- The order of keys in the returned dictionaries is left out. Dafny maps
  are unordered.
