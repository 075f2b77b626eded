/**
 * Text helpers for the exporters: Python's decimal rendering of an `int`,
 * comma joining of fields, and the inverse readers used to state what a
 * written row and a written file mean.
 */
module Text {
  import opened Wrappers

  predicate IsDigit(c: char) {
    '0' <= c <= '9'
  }

  predicate AllDigits(s: string) {
    forall i :: 0 <= i < |s| ==> IsDigit(s[i])
  }

  function DigitChar(d: nat): (c: char)
    requires d < 10
    ensures IsDigit(c) && DigitValue(c) == d
  {
    (('0' as int) + d) as char
  }

  function DigitValue(c: char): nat
    requires IsDigit(c)
  {
    (c as int) - ('0' as int)
  }

  /** Decimal text of a natural number, as Python's `str` writes it. */
  function NatToString(n: nat): (s: string)
    ensures |s| > 0 && AllDigits(s)
    ensures s[0] == '0' ==> n == 0 && |s| == 1
    decreases n
  {
    if n < 10 then [DigitChar(n)] else NatToString(n / 10) + [DigitChar(n % 10)]
  }

  /** Decimal text of an integer, as Python's `str` writes it: a minus sign, then the digits. */
  function IntToString(n: int): (s: string)
    ensures |s| > 0
    ensures s[0] == '-' <==> n < 0
    ensures forall i :: 0 <= i < |s| ==> IsDigit(s[i]) || (i == 0 && s[i] == '-')
    ensures n < 0 ==> |s| >= 2 && s[1] != '0'
    ensures n >= 0 && s[0] == '0' ==> s == "0"
  {
    if n < 0 then "-" + NatToString(-n) else NatToString(n)
  }

  /** Value of a string of decimal digits. */
  function ParseNat(s: string): nat
    requires AllDigits(s)
    decreases |s|
  {
    if |s| == 0 then 0 else 10 * ParseNat(s[..|s| - 1]) + DigitValue(s[|s| - 1])
  }

  /** Reads back an optionally signed decimal integer. */
  function ParseInt(s: string): Option<int> {
    if |s| > 0 && AllDigits(s) then Some(ParseNat(s))
    else if |s| > 1 && s[0] == '-' && AllDigits(s[1..]) then Some(-(ParseNat(s[1..]) as int))
    else None
  }

  lemma {:induction false} NatToStringRoundTrip(n: nat)
    ensures ParseNat(NatToString(n)) == n
    decreases n
  {
    if n >= 10 {
      var s := NatToString(n);
      assert s[..|s| - 1] == NatToString(n / 10);
      NatToStringRoundTrip(n / 10);
    } else {
      var s := NatToString(n);
      assert s[..|s| - 1] == [];
    }
  }

  /** Reading back the text of an id gives the id: no two ids share a text. */
  lemma IntToStringRoundTrip(n: int)
    ensures ParseInt(IntToString(n)) == Some(n)
  {
    if n < 0 {
      var s := IntToString(n);
      assert s[1..] == NatToString(-n);
      assert !IsDigit(s[0]);
      NatToStringRoundTrip(-n);
    } else {
      NatToStringRoundTrip(n);
    }
  }

  lemma IntToStringInjective(a: int, b: int)
    ensures IntToString(a) == IntToString(b) ==> a == b
  {
    IntToStringRoundTrip(a);
    IntToStringRoundTrip(b);
  }

  /** The text of an id never holds a comma or a line break. */
  lemma IntToStringClean(n: int)
    ensures Clean(IntToString(n))
  {
    var s := IntToString(n);
    assert forall i :: 0 <= i < |s| ==> s[i] != ',' && s[i] != '\n';
  }

  /** Python's `a + "," + b + "," + ...`: the fields with the separator between them. */
  function Join(fields: seq<string>, sep: char): string
    decreases |fields|
  {
    if |fields| == 0 then ""
    else if |fields| == 1 then fields[0]
    else fields[0] + [sep] + Join(fields[1..], sep)
  }

  /** The pieces of `s` between occurrences of `sep` (Python's `str.split(sep)`). */
  function SplitOn(s: string, sep: char): (parts: seq<string>)
    ensures |parts| > 0
    ensures forall i :: 0 <= i < |parts| ==> sep !in parts[i]
    decreases |s|
  {
    if |s| == 0 then [""]
    else
      var rest := SplitOn(s[1..], sep);
      if s[0] == sep then [""] + rest
      else [[s[0]] + rest[0]] + rest[1..]
  }

  lemma {:induction false} SplitOnFree(a: string, sep: char)
    requires sep !in a
    ensures SplitOn(a, sep) == [a]
    decreases |a|
  {
    if |a| > 0 {
      SplitOnFree(a[1..], sep);
      assert [a[0]] + a[1..] == a;
    }
  }

  /** Splitting stops at the first separator. */
  lemma {:induction false} SplitOnPrefix(a: string, sep: char, b: string)
    requires sep !in a
    ensures SplitOn(a + [sep] + b, sep) == [a] + SplitOn(b, sep)
    decreases |a|
  {
    var s := a + [sep] + b;
    if |a| == 0 {
      assert s[1..] == b;
    } else {
      assert s[1..] == a[1..] + [sep] + b;
      SplitOnPrefix(a[1..], sep, b);
      assert [a[0]] + a[1..] == a;
    }
  }

  /** Joining separator-free fields and splitting again gives the fields back. */
  lemma {:induction false} SplitJoin(fields: seq<string>, sep: char)
    requires |fields| > 0
    requires forall i :: 0 <= i < |fields| ==> sep !in fields[i]
    ensures SplitOn(Join(fields, sep), sep) == fields
    decreases |fields|
  {
    if |fields| == 1 {
      SplitOnFree(fields[0], sep);
    } else {
      SplitJoin(fields[1..], sep);
      SplitOnPrefix(fields[0], sep, Join(fields[1..], sep));
      assert [fields[0]] + fields[1..] == fields;
    }
  }

  /** Appending after a list that drops its first element (a header, say). */
  lemma MoveTail<T>(a: seq<T>, b: seq<T>, x: seq<T>)
    requires |b| > 0
    ensures a + b[1..] + x == a + (b + x)[1..]
  {
    assert (b + x)[1..] == b[1..] + x;
  }

  /** A field that survives a comma-separated line: no comma, no line break. */
  predicate Clean(field: string) {
    ',' !in field && '\n' !in field
  }

  /** A written line: fields joined by commas, then a line break. */
  function JoinRow(fields: seq<string>): string {
    Join(fields, ',') + "\n"
  }

  /** A line without its trailing line break. */
  function StripNewline(line: string): string {
    if |line| > 0 && line[|line| - 1] == '\n' then line[..|line| - 1] else line
  }

  /** The comma-separated fields of one written line. */
  function Fields(line: string): seq<string> {
    SplitOn(StripNewline(line), ',')
  }

  /** Clean fields written as a row read back as the same fields. */
  lemma JoinRowFields(fields: seq<string>)
    requires |fields| > 0
    requires forall i :: 0 <= i < |fields| ==> Clean(fields[i])
    ensures Fields(JoinRow(fields)) == fields
  {
    var body := Join(fields, ',');
    assert StripNewline(body + "\n") == body;
    SplitJoin(fields, ',');
  }

  /** A field without commas that starts a line is that line's first field. */
  lemma LeadingField(a: string, rest: string)
    requires ',' !in a
    ensures |Fields(a + "," + rest + "\n")| >= 2
    ensures Fields(a + "," + rest + "\n")[0] == a
  {
    assert StripNewline(a + "," + rest + "\n") == a + [','] + rest;
    SplitOnPrefix(a, ',', rest);
  }

  /**
   * A line that starts with a comma-free field, a comma, a second field and a
   * comma has that first field first; the second field is second when it has
   * no comma.
   */
  lemma LeadingFields(a: string, b: string, rest: string)
    requires ',' !in a
    ensures |Fields(a + "," + b + "," + rest + "\n")| >= 2
    ensures Fields(a + "," + b + "," + rest + "\n")[0] == a
    ensures ',' !in b ==> Fields(a + "," + b + "," + rest + "\n")[1] == b
  {
    assert a + "," + b + "," + rest + "\n" == a + "," + (b + "," + rest) + "\n";
    LeadingField(a, b + "," + rest);
    if ',' !in b {
      assert StripNewline(a + "," + b + "," + rest + "\n") == a + [','] + (b + [','] + rest);
      SplitOnPrefix(a, ',', b + [','] + rest);
      SplitOnPrefix(b, ',', rest);
    }
  }

  /** The first two fields of a join of at least three, spelled out. */
  lemma JoinFirstTwo(fields: seq<string>, sep: char)
    requires |fields| >= 3
    ensures Join(fields, sep) == fields[0] + [sep] + fields[1] + [sep] + Join(fields[2..], sep)
  {
    assert fields[1..][1..] == fields[2..];
  }

  /** A line's text followed by a line break is a written line. */
  lemma LineText(text: string)
    requires '\n' !in text
    ensures IsLine(text + "\n") && StripNewline(text + "\n") == text
  {
    assert (text + "\n")[..|text|] == text;
  }

  /** The text of a whole output file: its lines one after another. */
  function Content(lines: seq<string>): string
    decreases |lines|
  {
    if |lines| == 0 then "" else lines[0] + Content(lines[1..])
  }

  /** One written line: text without line breaks, then a single line break. */
  predicate IsLine(line: string) {
    |line| > 0 && line[|line| - 1] == '\n' && '\n' !in line[..|line| - 1]
  }

  /** A character that is neither the separator nor in any field is not in their join. */
  lemma {:induction false} JoinFree(fields: seq<string>, sep: char, c: char)
    requires c != sep
    requires forall i :: 0 <= i < |fields| ==> c !in fields[i]
    ensures c !in Join(fields, sep)
    decreases |fields|
  {
    if |fields| > 1 {
      assert forall i :: 0 <= i < |fields| - 1 ==> fields[1..][i] == fields[i + 1];
      JoinFree(fields[1..], sep, c);
    }
  }

  /** Fields without line breaks make a row that is exactly one written line. */
  lemma JoinRowLine(fields: seq<string>)
    requires forall i :: 0 <= i < |fields| ==> '\n' !in fields[i]
    ensures IsLine(JoinRow(fields)) && StripNewline(JoinRow(fields)) == Join(fields, ',')
  {
    JoinFree(fields, ',', '\n');
    LineText(Join(fields, ','));
  }

  /** Reading a file back line by line recovers every written line, in order, then an empty tail. */
  lemma {:induction false} ContentLines(lines: seq<string>)
    requires forall i :: 0 <= i < |lines| ==> IsLine(lines[i])
    ensures |SplitOn(Content(lines), '\n')| == |lines| + 1
    ensures forall i :: 0 <= i < |lines| ==> SplitOn(Content(lines), '\n')[i] == StripNewline(lines[i])
    ensures SplitOn(Content(lines), '\n')[|lines|] == ""
    decreases |lines|
  {
    if |lines| == 0 {
      assert SplitOn("", '\n') == [""];
    } else {
      var first := lines[0];
      var body := first[..|first| - 1];
      assert first == body + ['\n'];
      ContentLines(lines[1..]);
      SplitOnPrefix(body, '\n', Content(lines[1..]));
      assert Content(lines) == body + ['\n'] + Content(lines[1..]);
    }
  }
}
