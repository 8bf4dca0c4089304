# Translation lookup (`tr`) — a Dafny model

The repository provides one helper, `tr(csvFilePath, targetKey, langcode = "en")`.
It reads a CSV translation table and parses it with a header line into records
that map column names to text. It then scans the records in file order for the
first one whose `stringname` column equals the key. From that record it answers
`row[langcode] || row["en"] || ""`. When no record matches, it answers
`Missing translation for "<key>"`. Any exception while reading or parsing
becomes the fixed answer `Error: Unable to load translations`.

The model is one module, `Translator` in `translator.dfy`:

- `Row` is `map<string, string>`: one parsed record, its own columns only.
- `LoadOutcome` is `LoadFailed | Parsed(rows)`. It stands in for the file read and the CSV parser together.
- `JsValue`, `Get`, `Truthy` and `Or` give JavaScript's property read and `||` on a string-or-`undefined` value.
- `Pick` is the fallback chain. `Lookup` is the row scan, written as a recursive function. `Tr` is the whole function, including the failure answer and the default language `"en"`.
- `Translate` is the loop with an early return, as the source writes it. It is proved equal to `Tr`.

Behaviour of the code that may be unexpected:

- Texts are not trimmed. A whitespace-only text is returned as it is and does not fall back to `en`.
- When neither the requested language nor `en` has text, the answer is `""`, not a placeholder naming the key.
- The parser is called with `header: true` only. Empty lines are not skipped by request, so a trailing empty record may exist. The model takes whatever records the parser produced.
- The default language is the constant `"en"`. It is not derived from the system locale.

## Model

| member | source | states |
|---|---|---|
| `Translator.Or` | src/translator.ts:27 | JavaScript's or-operator returns one of its two operands, and its result is truthy exactly when at least one operand is |
| `Translator.Pick` | src/translator.ts:27 | the requested language's text if non-empty; otherwise the non-empty `en` text; the answer is `""` exactly when neither has text |
| `Translator.MissingMessage` | src/translator.ts:31-32 | the not-found answer starts with `Missing translation for "`, carries the key right after that prefix, and ends with a quote |
| `Translator.Translate` | src/translator.ts:11-37 | the loop with early return gives the same answer as the specification `Tr`, and a load failure gives exactly the fixed error text |
| `Translator.LookupFound` | src/translator.ts:25-28 | when row `i` is the first row whose key equals the key, the answer is that row's requested text, else its `en` text, else `""` |
| `Translator.LookupNotFound` | src/translator.ts:25-32 | when no row matches, the answer is exactly the not-found message for that key |
| `Translator.FirstMatchOrNone` | src/translator.ts:25-29 | every table either has a first matching row or no matching row |
| `Translator.LookupCases` | src/translator.ts:25-32 | every answer of the scan is the not-found message when nothing matches, and otherwise the pick from the first matching row |
| `Translator.LaterRowsIgnored` | src/translator.ts:25-29 | once a row matches, rows appended after it (duplicates with other texts included) never change the answer |
| `Translator.EarlierNonMatchingIgnored` | src/translator.ts:25-26 | rows that do not match the key, placed before the table, never change the answer |
| `Translator.OnlyMatchingRowsCount` | src/translator.ts:26 | the answer over only the rows whose `stringname` equals the key is the answer over all rows |
| `Translator.NonMatchingRowSkipped` | src/translator.ts:26 | a row without a `stringname` column, or whose `stringname` differs from the key in any character, is skipped by the scan: matching is exact string equality |
| `Translator.MissingKeyRoundTrip` | src/translator.ts:32 | the key can be read back out of its not-found message |
| `Translator.MissingMessageInjective` | src/translator.ts:32 | two keys with the same not-found message are the same key |
| `Translator.LoadErrorIsNotMissing` | src/translator.ts:32-35 | the load-failure answer differs from the not-found answer for every key |
| `Translator.TrFailure` | src/translator.ts:33-35 | a read or parse failure gives exactly `Error: Unable to load translations` for every key and language, with or without a language argument |
| `Translator.TrDefaultLanguage` | src/translator.ts:14-27 | without a language argument the answer for a matched key is its `en` text, or `""` when that is missing or empty |
| `Translator.WhitespaceNotTrimmed` | src/translator.ts:27 | any non-empty text in the requested language, whitespace-only texts of spaces, tabs or line breaks included, is returned verbatim, without falling back to `en` |
| `Translator.CaseSensitiveMatch` | src/translator.ts:26 | a row keyed `Greeting` does not answer the key `greeting`, which is then reported missing |
| `Translator.DuplicateKeyFirstWins` | src/translator.ts:25-28 | with two rows keyed `greeting`, the first row's text is the answer |

## Left out

- Reading the file (`FileSystem.readAsStringAsync`, src/translator.ts:18) is asynchronous I/O. It is modelled only through its outcome: `LoadFailed` or the parsed rows.
- CSV parsing (`Papa.parse`, src/translator.ts:21-22) is a third-party library whose code is not part of this model. Its records are taken as a given `seq<map<string, string>>`. A parser that returns without throwing but with errors is a `Parsed` outcome.
- The diagnostic `console.error` call (src/translator.ts:34) is a logging side effect and not part of the answer.
- The `async`/`Promise` wrapping is not modelled. One call is one request and one answer, and the answer never rejects.
- Properties inherited from JavaScript's `Object.prototype` are not modelled. A row is the finite map of its own columns, so a language code such as `toString` is treated as a missing column.
- Idempotence of repeated calls is not stated as a lemma. `Tr` is a function of its arguments, so equal arguments give equal answers by construction.
