/**
 * CSV output of the logs: how one value becomes a field, how fields are
 * joined into a line, and a quote-aware reader of such lines that undoes
 * both.
 */
module Csv {
  import opened Text
  import opened Seqs

  /** The values that reach the CSV writer: missing, text or whole numbers. */
  datatype CsvValue = Null | Str(s: string) | Int(i: int)

  /** The value as text, as JavaScript's String() renders it. */
  function Display(v: CsvValue): string {
    match v
    case Null => ""
    case Str(s) => s
    case Int(i) => IntToString(i)
  }

  /** A field needs quotes when it holds a double quote, a comma or a newline. */
  predicate NeedsQuoting(s: string) {
    '"' in s || ',' in s || '\n' in s
  }

  /** How many double quotes `s` holds. */
  function QuoteCount(s: string): nat {
    if s == [] then 0 else (if s[0] == '"' then 1 else 0) + QuoteCount(s[1..])
  }

  /** Every double quote written twice, everything else kept. */
  function DoubleQuotes(s: string): (r: string)
    ensures |r| == |s| + QuoteCount(s)
    ensures '"' !in s ==> r == s
  {
    if s == [] then [] else (if s[0] == '"' then "\"\"" else [s[0]]) + DoubleQuotes(s[1..])
  }

  /**
   * A value as a CSV field: empty for a missing value; the text itself when
   * it needs no quotes; otherwise the text in double quotes with each double
   * quote doubled.
   */
  function CsvEscape(v: CsvValue): (r: string)
    ensures v.Null? ==> r == ""
    ensures !NeedsQuoting(Display(v)) ==> r == Display(v)
    ensures NeedsQuoting(Display(v)) ==>
              |r| == |Display(v)| + QuoteCount(Display(v)) + 2 && r[0] == '"' && r[|r| - 1] == '"'
  {
    if v.Null? then ""
    else
      var s := Display(v);
      if NeedsQuoting(s) then "\"" + DoubleQuotes(s) + "\"" else s
  }

  /** The fields separated by commas. */
  function JoinFields(fields: seq<string>): string {
    if fields == [] then ""
    else if |fields| == 1 then fields[0]
    else fields[0] + "," + JoinFields(fields[1..])
  }

  /** Every value escaped, in order. */
  function EscapeAll(values: seq<CsvValue>): (fields: seq<string>)
    ensures |fields| == |values|
    ensures forall k :: 0 <= k < |values| ==> fields[k] == CsvEscape(values[k])
  {
    if values == [] then [] else [CsvEscape(values[0])] + EscapeAll(values[1..])
  }

  /** Every value's text, in order. */
  function DisplayAll(values: seq<CsvValue>): (texts: seq<string>)
    ensures |texts| == |values|
  {
    if values == [] then [] else [Display(values[0])] + DisplayAll(values[1..])
  }

  /** One data line: every value escaped, then joined. */
  function CsvLine(values: seq<CsvValue>): string {
    JoinFields(EscapeAll(values))
  }

  // ---------------------------------------------------------------------------
  // Reading lines back

  /**
   * The inside of a quoted field, `s` starting just after the opening quote:
   * a doubled quote stands for one quote, a single quote closes the field.
   * Returns the text and what follows the closing quote.
   */
  function ParseQuoted(s: string): (r: (string, string))
    ensures |r.1| < |s| || (s == [] && r.1 == [])
  {
    if s == [] then ([], [])
    else if s[0] == '"' then
      if |s| >= 2 && s[1] == '"' then
        var (text, rest) := ParseQuoted(s[2..]);
        (['"'] + text, rest)
      else ([], s[1..])
    else
      var (text, rest) := ParseQuoted(s[1..]);
      ([s[0]] + text, rest)
  }

  /** An unquoted field: everything up to the next comma. */
  function ParseUnquoted(s: string): (r: (string, string))
    ensures |r.1| <= |s|
  {
    if s == [] || s[0] == ',' then ([], s)
    else
      var (text, rest) := ParseUnquoted(s[1..]);
      ([s[0]] + text, rest)
  }

  /** One field, quoted or not, and what follows it. */
  function ParseField(s: string): (r: (string, string))
    ensures |r.1| <= |s|
  {
    if s != [] && s[0] == '"' then ParseQuoted(s[1..]) else ParseUnquoted(s)
  }

  /** The fields of a line; reading stops at the first field not followed by a comma. */
  function ParseLine(s: string): seq<string>
    decreases |s|
  {
    var (field, rest) := ParseField(s);
    if rest != [] && rest[0] == ',' then [field] + ParseLine(rest[1..]) else [field]
  }

  /** What may follow a field in a line: nothing, or a comma. */
  predicate FieldEnd(rest: string) {
    rest == [] || rest[0] == ','
  }

  lemma {:induction false} ParseQuotedDoubled(text: string, rest: string)
    requires FieldEnd(rest)
    ensures ParseQuoted(DoubleQuotes(text) + "\"" + rest) == (text, rest)
    decreases |text|
  {
    if text == [] {
      assert DoubleQuotes(text) + "\"" + rest == ['"'] + rest;
    } else {
      var head: string := if text[0] == '"' then "\"\"" else [text[0]];
      var d := DoubleQuotes(text[1..]);
      var tail := d + "\"" + rest;
      var s := DoubleQuotes(text) + "\"" + rest;
      assert s == head + tail by {
        assert DoubleQuotes(text) == head + d;
        AppendAssoc(head, d, "\"");
        AppendAssoc(head, d + "\"", rest);
      }
      assert s[|head|..] == tail;
      ParseQuotedDoubled(text[1..], rest);
      assert text == [text[0]] + text[1..];
    }
  }

  lemma {:induction false} ParseUnquotedPlain(text: string, rest: string)
    requires ',' !in text && FieldEnd(rest)
    ensures ParseUnquoted(text + rest) == (text, rest)
    decreases |text|
  {
    if text == [] {
      assert text + rest == rest;
    } else {
      ParseUnquotedPlain(text[1..], rest);
      assert (text + rest)[1..] == text[1..] + rest;
      assert text == [text[0]] + text[1..];
    }
  }

  /** Reading a quoted field gives back its text and leaves what follows. */
  lemma QuotedReadsBack(text: string, rest: string)
    requires FieldEnd(rest)
    ensures ParseField("\"" + DoubleQuotes(text) + "\"" + rest) == (text, rest)
  {
    var inner := DoubleQuotes(text) + "\"" + rest;
    var s := "\"" + DoubleQuotes(text) + "\"" + rest;
    assert s == "\"" + inner by {
      AppendAssoc("\"", DoubleQuotes(text), "\"");
      AppendAssoc("\"", DoubleQuotes(text) + "\"", rest);
    }
    assert s[1..] == inner;
    ParseQuotedDoubled(text, rest);
  }

  /** Reading an escaped field gives back the value's text and leaves what follows. */
  lemma EscapeReadsBack(v: CsvValue, rest: string)
    requires FieldEnd(rest)
    ensures ParseField(CsvEscape(v) + rest) == (Display(v), rest)
  {
    var s := Display(v);
    if v.Null? {
      assert CsvEscape(v) + rest == rest;
    } else if NeedsQuoting(s) {
      QuotedReadsBack(s, rest);
    } else {
      ParseUnquotedPlain(s, rest);
    }
  }

  /** Unescaping one field: the text of the field that the whole string is. */
  function CsvUnescape(field: string): string {
    ParseField(field).0
  }

  /** Round trip of one field. */
  lemma UnescapeEscape(v: CsvValue)
    ensures CsvUnescape(CsvEscape(v)) == Display(v)
  {
    EscapeReadsBack(v, []);
    assert CsvEscape(v) + [] == CsvEscape(v);
  }

  /** Round trip of a line: reading a line of escaped values gives their texts back. */
  lemma {:induction false} LineReadsBack(values: seq<CsvValue>)
    requires values != []
    ensures ParseLine(CsvLine(values)) == DisplayAll(values)
    decreases |values|
  {
    if |values| == 1 {
      EscapeReadsBack(values[0], []);
      assert CsvEscape(values[0]) + [] == CsvEscape(values[0]);
    } else {
      var tail := values[1..];
      var restLine := CsvLine(tail);
      var first := CsvEscape(values[0]);
      assert CsvLine(values) == first + ("," + restLine) by {
        AppendAssoc(first, ",", restLine);
      }
      EscapeReadsBack(values[0], "," + restLine);
      assert ("," + restLine)[1..] == restLine;
      LineReadsBack(tail);
    }
  }
}
