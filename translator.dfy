/**
 * Translation lookup of a localisation helper: given the rows of a parsed CSV
 * translation table, a key and a language code, return the translated text.
 *
 * The row scan stops at the first row whose `stringname` column equals the key
 * and answers with the requested language's text, else the `en` text, else the
 * empty string, using JavaScript's `||` on possibly-undefined column values.
 * No matching row gives a "Missing translation" message naming the key; a
 * failure to read or parse the file gives one fixed error message.
 */
module Translator {

  /** One parsed CSV record: column name (from the header line) to cell text. */
  type Row = map<string, string>

  /** What reading and parsing the CSV file produced; both steps are outside the model. */
  datatype LoadOutcome =
    | LoadFailed              // the file read rejected or the parser threw
    | Parsed(rows: seq<Row>)  // the parser's records, in file order

  /** The column that holds a row's lookup key. */
  const KeyColumn: string := "stringname"

  /** The language whose text is used when the requested one has none. */
  const FallbackLanguage: string := "en"

  /** The language code used when the caller gives none. */
  const DefaultLanguage: string := "en"

  /** The whole result when reading or parsing fails. */
  const LoadError: string := "Error: Unable to load translations"

  /** The part of the not-found message that precedes the key. */
  const MissingPrefix: string := "Missing translation for \""

  // ---------------------------------------------------------------------------
  // JavaScript values as far as the lookup sees them

  /** A property read on a row yields either a string or `undefined`. */
  datatype JsValue = Undefined | Str(s: string)

  /** `row[column]`: the cell when the row has that column, `undefined` otherwise. */
  function Get(row: Row, column: string): JsValue {
    if column in row then Str(row[column]) else Undefined
  }

  /** JavaScript truthiness restricted to strings and `undefined`. */
  predicate Truthy(v: JsValue) {
    v.Str? && v.s != ""
  }

  /** JavaScript `a || b`: `a` when it is truthy, else `b`. */
  function Or(a: JsValue, b: JsValue): (v: JsValue)
    ensures v == a || v == b
    ensures Truthy(v) <==> Truthy(a) || Truthy(b)
  {
    if Truthy(a) then a else b
  }

  // ---------------------------------------------------------------------------
  // Specification of the lookup

  /** The row has the column and its text is not empty. */
  predicate HasText(row: Row, column: string) {
    column in row && row[column] != ""
  }

  /** `row["stringname"] === key`: exact equality, and a row without the column never matches. */
  predicate Matches(row: Row, key: string) {
    KeyColumn in row && row[KeyColumn] == key
  }

  /** Row `i` is the first row of `rows` whose key column equals `key`. */
  ghost predicate IsFirstMatch(rows: seq<Row>, key: string, i: int) {
    && 0 <= i < |rows|
    && Matches(rows[i], key)
    && forall j | 0 <= j < i :: !Matches(rows[j], key)
  }

  /** No row of `rows` matches `key`. */
  ghost predicate NoMatch(rows: seq<Row>, key: string) {
    forall j | 0 <= j < |rows| :: !Matches(rows[j], key)
  }

  /**
   * The answer for a matched row: `row[lang] || row["en"] || ""`.
   * Texts are returned verbatim (no trimming), so only a missing column or an
   * empty text falls through; when both are missing the answer is `""`.
   */
  function Pick(row: Row, lang: string): (r: string)
    ensures HasText(row, lang) ==> r == row[lang]
    ensures !HasText(row, lang) && HasText(row, FallbackLanguage) ==> r == row[FallbackLanguage]
    ensures r == "" <==> !HasText(row, lang) && !HasText(row, FallbackLanguage)
  {
    Or(Or(Get(row, lang), Get(row, FallbackLanguage)), Str("")).s
  }

  /** Sequence `part` occurs in `whole` starting at index `at`. */
  predicate OccursAt(whole: string, part: string, at: nat) {
    at + |part| <= |whole| && whole[at..at + |part|] == part
  }

  /** The not-found answer: `Missing translation for "<key>"`. */
  function MissingMessage(key: string): (r: string)
    ensures OccursAt(r, MissingPrefix, 0)
    ensures OccursAt(r, key, |MissingPrefix|)
    ensures |r| == |MissingPrefix| + |key| + 1 && r[|r| - 1] == '"'
  {
    MissingPrefix + key + "\""
  }

  datatype Option<T> = None | Some(value: T)

  /** Recovers the key from a not-found answer; `None` for any other text. */
  function MissingKey(m: string): (k: Option<string>)
    ensures k.Some? ==> |m| == |MissingPrefix| + |k.value| + 1
  {
    if |m| > |MissingPrefix| && m[..|MissingPrefix|] == MissingPrefix && m[|m| - 1] == '"'
    then Some(m[|MissingPrefix|..|m| - 1])
    else None
  }

  /** The row scan: the first matching row decides, and no match gives the not-found answer. */
  function Lookup(rows: seq<Row>, key: string, lang: string): string
    decreases |rows|
  {
    if |rows| == 0 then MissingMessage(key)
    else if Matches(rows[0], key) then Pick(rows[0], lang)
    else Lookup(rows[1..], key, lang)
  }

  /** The whole of `tr`: a load failure collapses to `LoadError`, otherwise the row scan. */
  function Tr(outcome: LoadOutcome, key: string, lang: string := DefaultLanguage): string {
    match outcome
    case LoadFailed => LoadError
    case Parsed(rows) => Lookup(rows, key, lang)
  }

  /** The rows of `rows` that match `key`, in order. */
  function MatchingRows(rows: seq<Row>, key: string): (m: seq<Row>)
    ensures |m| <= |rows|
    ensures forall j | 0 <= j < |m| :: Matches(m[j], key)
  {
    if |rows| == 0 then []
    else if Matches(rows[0], key) then [rows[0]] + MatchingRows(rows[1..], key)
    else MatchingRows(rows[1..], key)
  }

  // ---------------------------------------------------------------------------
  // The function as the source runs it: a loop with an early return

  /** `tr` over an already loaded outcome, scanning the rows in a loop as the source does. */
  method Translate(outcome: LoadOutcome, key: string, lang: string := DefaultLanguage) returns (r: string)
    ensures r == Tr(outcome, key, lang)
    ensures outcome.LoadFailed? ==> r == LoadError
  {
    if outcome.LoadFailed? {
      return LoadError;
    }
    var rows := outcome.rows;
    for i := 0 to |rows|
      invariant Lookup(rows[i..], key, lang) == Lookup(rows, key, lang)
    {
      if KeyColumn in rows[i] && rows[i][KeyColumn] == key {
        return Pick(rows[i], lang);
      }
      assert rows[i..][1..] == rows[i + 1..];
    }
    return MissingMessage(key);
  }

  // ---------------------------------------------------------------------------
  // Properties

  /** The first matching row decides the answer, by the fallback order of `Pick`. */
  lemma {:induction false} LookupFound(rows: seq<Row>, key: string, lang: string, i: int)
    requires IsFirstMatch(rows, key, i)
    ensures Lookup(rows, key, lang) == Pick(rows[i], lang)
    ensures HasText(rows[i], lang) ==> Lookup(rows, key, lang) == rows[i][lang]
    ensures !HasText(rows[i], lang) && HasText(rows[i], FallbackLanguage) ==>
              Lookup(rows, key, lang) == rows[i][FallbackLanguage]
    ensures !HasText(rows[i], lang) && !HasText(rows[i], FallbackLanguage) ==>
              Lookup(rows, key, lang) == ""
  {
    if i > 0 {
      assert !Matches(rows[0], key);
      LookupFound(rows[1..], key, lang, i - 1);
    }
  }

  /** With no matching row the answer is exactly the not-found message. */
  lemma {:induction false} LookupNotFound(rows: seq<Row>, key: string, lang: string)
    requires NoMatch(rows, key)
    ensures Lookup(rows, key, lang) == MissingMessage(key)
  {
    if |rows| > 0 {
      assert !Matches(rows[0], key);
      LookupNotFound(rows[1..], key, lang);
    }
  }

  /** Every table either has a first matching row or no match at all. */
  lemma {:induction false} FirstMatchOrNone(rows: seq<Row>, key: string)
    ensures NoMatch(rows, key) || exists i :: IsFirstMatch(rows, key, i)
  {
    if |rows| > 0 && !NoMatch(rows, key) {
      if Matches(rows[0], key) {
        assert IsFirstMatch(rows, key, 0);
      } else {
        FirstMatchOrNone(rows[1..], key);
        var i :| IsFirstMatch(rows[1..], key, i);
        assert IsFirstMatch(rows, key, i + 1);
      }
    }
  }

  /** Every answer of the scan is either the not-found message (no match) or the first matching row's pick. */
  lemma LookupCases(rows: seq<Row>, key: string, lang: string)
    ensures NoMatch(rows, key) ==> Lookup(rows, key, lang) == MissingMessage(key)
    ensures !NoMatch(rows, key) ==>
              exists i :: IsFirstMatch(rows, key, i) && Lookup(rows, key, lang) == Pick(rows[i], lang)
  {
    FirstMatchOrNone(rows, key);
    if NoMatch(rows, key) {
      LookupNotFound(rows, key, lang);
    } else {
      var i :| IsFirstMatch(rows, key, i);
      LookupFound(rows, key, lang, i);
    }
  }

  /** First match wins: rows appended after a matching row, duplicates included, never change the answer. */
  lemma {:induction false} LaterRowsIgnored(rows: seq<Row>, later: seq<Row>, key: string, lang: string)
    requires !NoMatch(rows, key)
    ensures Lookup(rows + later, key, lang) == Lookup(rows, key, lang)
  {
    if !Matches(rows[0], key) {
      assert (rows + later)[1..] == rows[1..] + later;
      LaterRowsIgnored(rows[1..], later, key, lang);
    }
  }

  /** Rows placed before the table that do not match the key never change the answer. */
  lemma {:induction false} EarlierNonMatchingIgnored(earlier: seq<Row>, rows: seq<Row>, key: string, lang: string)
    requires NoMatch(earlier, key)
    ensures Lookup(earlier + rows, key, lang) == Lookup(rows, key, lang)
  {
    if |earlier| > 0 {
      assert (earlier + rows)[0] == earlier[0] && !Matches(earlier[0], key);
      assert (earlier + rows)[1..] == earlier[1..] + rows;
      EarlierNonMatchingIgnored(earlier[1..], rows, key, lang);
    } else {
      assert earlier + rows == rows;
    }
  }

  /** A row without the key column, or whose key column differs from the key in any character, is skipped. */
  lemma NonMatchingRowSkipped(row: Row, rows: seq<Row>, key: string, lang: string)
    requires KeyColumn !in row || row[KeyColumn] != key
    ensures Lookup([row] + rows, key, lang) == Lookup(rows, key, lang)
  {
  }

  /** Matching is exact: only rows whose key column equals the key take part in the answer. */
  lemma {:induction false} OnlyMatchingRowsCount(rows: seq<Row>, key: string, lang: string)
    ensures Lookup(MatchingRows(rows, key), key, lang) == Lookup(rows, key, lang)
  {
    if |rows| > 0 {
      OnlyMatchingRowsCount(rows[1..], key, lang);
      if Matches(rows[0], key) {
        assert ([rows[0]] + MatchingRows(rows[1..], key))[0] == rows[0];
      }
    }
  }

  /** The key is recovered from the not-found message, so different keys give different messages. */
  lemma MissingKeyRoundTrip(key: string)
    ensures MissingKey(MissingMessage(key)) == Some(key)
  {
  }

  /** The not-found message names the key it was asked for, and no two keys share one. */
  lemma MissingMessageInjective(k1: string, k2: string)
    requires MissingMessage(k1) == MissingMessage(k2)
    ensures k1 == k2
  {
  }

  /** A load failure can be told apart from a not-found answer for any key. */
  lemma LoadErrorIsNotMissing(key: string)
    ensures LoadError != MissingMessage(key)
  {
  }

  /** Any failure gives exactly the load error, whatever the key and language. */
  lemma TrFailure(key: string, lang: string)
    ensures Tr(LoadFailed, key, lang) == LoadError
    ensures Tr(LoadFailed, key) == LoadError
  {
  }

  /**
   * Without a language argument the code is `"en"`: the first matching row's
   * `en` text when it has one, otherwise `""`.
   */
  lemma TrDefaultLanguage(rows: seq<Row>, key: string, i: int)
    requires IsFirstMatch(rows, key, i)
    ensures HasText(rows[i], FallbackLanguage) ==> Tr(Parsed(rows), key) == rows[i][FallbackLanguage]
    ensures !HasText(rows[i], FallbackLanguage) ==> Tr(Parsed(rows), key) == ""
  {
    LookupFound(rows, key, DefaultLanguage, i);
  }

  /**
   * Any non-empty text, whitespace-only ones (spaces, tabs, line breaks) included,
   * is returned as it is and does not fall back to `en`.
   */
  lemma WhitespaceNotTrimmed(row: Row, lang: string)
    requires lang in row && row[lang] != ""
    ensures Pick(row, lang) == row[lang]
  {
  }

  /** Matching is case-sensitive: `Greeting` does not match the key `greeting`. */
  lemma CaseSensitiveMatch()
    ensures Lookup([map[KeyColumn := "Greeting", FallbackLanguage := "Hello"]], "greeting", "de")
            == MissingMessage("greeting")
  {
  }

  /** Two rows with the same key: the first one's text is the answer. */
  lemma DuplicateKeyFirstWins()
    ensures Lookup([map[KeyColumn := "greeting", "de" := "Hallo"],
                    map[KeyColumn := "greeting", "de" := "Servus"]], "greeting", "de") == "Hallo"
  {
  }
}
