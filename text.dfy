/** The Python string operations the two scripts rely on, over `string` (= seq<char>):
    `str.strip`, `str.rstrip("\n")`, `str.split(":")`, iterating a text file line by
    line, and the decimal rendering of an `int` in an f-string. */
module Text {

  /** Python's `str.isspace()` for one character: the characters `str.strip()`
      removes when it is given no argument. */
  predicate IsSpace(c: char) {
    if c <= '\U{7F}' then IsAsciiSpace(c) else IsWideSpace(c)
  }

  /** The whitespace characters below U+0080: space, tab to carriage return, and the
      four separators U+001C to U+001F. */
  predicate IsAsciiSpace(c: char) {
    c == ' ' || ('\t' <= c <= '\r') || ('\U{1C}' <= c <= '\U{1F}')
  }

  /** The whitespace characters from U+0080 up. */
  predicate IsWideSpace(c: char) {
    || c == '\U{85}' || c == '\U{A0}' || c == '\U{1680}'
    || ('\U{2000}' <= c <= '\U{200A}')
    || c == '\U{2028}' || c == '\U{2029}' || c == '\U{202F}' || c == '\U{205F}' || c == '\U{3000}'
  }

  /** How many whitespace characters `s` starts with. */
  function LeadingSpaces(s: string): (n: nat)
    ensures n <= |s|
    ensures forall i :: 0 <= i < n ==> IsSpace(s[i])
    ensures n < |s| ==> !IsSpace(s[n])
  {
    if |s| > 0 && IsSpace(s[0]) then 1 + LeadingSpaces(s[1..]) else 0
  }

  /** How many whitespace characters `s` ends with. */
  function TrailingSpaces(s: string): (n: nat)
    ensures n <= |s|
    ensures forall i :: |s| - n <= i < |s| ==> IsSpace(s[i])
    ensures n < |s| ==> !IsSpace(s[|s| - n - 1])
  {
    if |s| > 0 && IsSpace(s[|s| - 1]) then 1 + TrailingSpaces(s[..|s| - 1]) else 0
  }

  /** `s.strip()`: `s` without its leading and trailing whitespace, that is, the
      part of `s` between a whitespace prefix and a whitespace suffix that neither
      starts nor ends with whitespace itself. */
  function Strip(s: string): (r: string)
    ensures var lead := LeadingSpaces(s);
      && lead + |r| <= |s|
      && r == s[lead..lead + |r|]
      && (forall i :: 0 <= i < lead ==> IsSpace(s[i]))
      && (forall i :: lead + |r| <= i < |s| ==> IsSpace(s[i]))
    ensures r == [] || (!IsSpace(r[0]) && !IsSpace(r[|r| - 1]))
  {
    var lead := LeadingSpaces(s);
    var t := s[lead..];
    var trail := TrailingSpaces(t);
    assert forall i :: |s| - trail <= i < |s| ==> s[i] == t[i - lead];
    s[lead..|s| - trail]
  }

  /** `s.rstrip("\n")`: `s` with every trailing newline removed. */
  function RStripNewlines(s: string): (r: string)
    ensures |r| <= |s| && r == s[..|r|]
    ensures forall i :: |r| <= i < |s| ==> s[i] == '\n'
    ensures r == [] || r[|r| - 1] != '\n'
  {
    if |s| > 0 && s[|s| - 1] == '\n' then RStripNewlines(s[..|s| - 1]) else s
  }

  /** Stripping the newlines of a text closed by one newline gives back the text. */
  lemma RStripNewlinesClosed(t: string)
    requires t == [] || t[|t| - 1] != '\n'
    ensures RStripNewlines(t + "\n") == t
  {
    assert (t + "\n")[..|t|] == t;
  }

  /** The first position of `c` in `s`. */
  function IndexOf(s: string, c: char): (i: nat)
    requires c in s
    ensures i < |s| && s[i] == c && c !in s[..i]
  {
    if s[0] == c then 0 else 1 + IndexOf(s[1..], c)
  }

  /** `IndexOf` finds the separator right after a field that does not contain it. */
  lemma IndexOfAfterField(f: string, c: char, t: string)
    requires c !in f
    ensures IndexOf(f + [c] + t, c) == |f|
  {
    var s := f + [c] + t;
    var i := IndexOf(s, c);
    assert s[|f|] == c;
    assert forall k :: 0 <= k < i ==> s[..i][k] == s[k] != c;
  }

  /** `sep.join(fields)` for a one-character separator. */
  function Join(fields: seq<string>, sep: char): string
    requires |fields| > 0
  {
    if |fields| == 1 then fields[0] else fields[0] + [sep] + Join(fields[1..], sep)
  }

  /** `s.split(sep)` for a one-character separator: the pieces of `s` between
      occurrences of `sep`, empty pieces included. */
  function Split(s: string, sep: char): (fields: seq<string>)
    ensures |fields| > 0
    ensures forall i :: 0 <= i < |fields| ==> sep !in fields[i]
    ensures Join(fields, sep) == s
    ensures |fields| == 1 <==> sep !in s
    decreases |s|
  {
    if sep !in s then [s]
    else
      var i := IndexOf(s, sep);
      assert s == s[..i] + [sep] + s[i + 1..];
      [s[..i]] + Split(s[i + 1..], sep)
  }

  /** Splitting undoes joining fields that do not contain the separator. */
  lemma {:induction false} SplitJoin(fields: seq<string>, sep: char)
    requires |fields| > 0
    requires forall i :: 0 <= i < |fields| ==> sep !in fields[i]
    ensures Split(Join(fields, sep), sep) == fields
  {
    if |fields| > 1 {
      var rest := Join(fields[1..], sep);
      var s := fields[0] + [sep] + rest;
      IndexOfAfterField(fields[0], sep, rest);
      assert s[..|fields[0]|] == fields[0];
      assert s[|fields[0]| + 1..] == rest;
      SplitJoin(fields[1..], sep);
      assert [fields[0]] + fields[1..] == fields;
    }
  }

  /** The text before the first `sep`, or all of `s` when there is none. */
  function FirstField(s: string, sep: char): (f: string)
    ensures |f| <= |s| && f == s[..|f|] && sep !in f
    ensures |f| == |s| <==> sep !in s
    ensures |f| < |s| ==> s[|f|] == sep
  {
    if sep in s then s[..IndexOf(s, sep)] else s
  }

  /** `FirstField` is the first piece `Split` yields. */
  lemma SplitFirstField(s: string, sep: char)
    ensures Split(s, sep)[0] == FirstField(s, sep)
  {
  }

  /** The first k elements of a suffix are a slice of the whole. */
  lemma SliceOfSuffix(s: string, a: nat, k: nat)
    requires a + k <= |s|
    ensures s[a..][..k] == s[a..a + k]
    ensures a + k < |s| ==> s[a..][k] == s[a + k]
  {
  }

  /** All the strings of `parts`, one after the other. */
  function Concat(parts: seq<string>): string {
    if parts == [] then [] else parts[0] + Concat(parts[1..])
  }

  lemma {:induction false} ConcatAppend(parts: seq<string>, last: string)
    ensures Concat(parts + [last]) == Concat(parts) + last
  {
    if parts != [] {
      assert (parts + [last])[1..] == parts[1..] + [last];
      ConcatAppend(parts[1..], last);
    }
  }

  /** A line that a text file yields before its end: text without newlines, then one newline. */
  predicate IsClosedLine(l: string) {
    l != [] && l[|l| - 1] == '\n' && '\n' !in l[..|l| - 1]
  }

  /** Text without newlines, closed by one. */
  lemma ClosedLineOf(body: string)
    requires '\n' !in body
    ensures IsClosedLine(body + "\n")
  {
    assert (body + "\n")[..|body|] == body;
  }

  /** `lines` is how Python's line iteration cuts `s`: every line but the last is
      closed by a newline, the last may lack it, none is empty, and together they
      make up `s`. */
  predicate IsLineSplit(lines: seq<string>, s: string) {
    && Concat(lines) == s
    && (forall i :: 0 <= i < |lines| - 1 ==> IsClosedLine(lines[i]))
    && (|lines| > 0 ==> var l := lines[|lines| - 1]; l != [] && '\n' !in l[..|l| - 1])
  }

  /** The lines `for line in file` yields for a file whose text is `s`. */
  function Lines(s: string): (lines: seq<string>)
    ensures IsLineSplit(lines, s)
    decreases |s|
  {
    if s == [] then []
    else if '\n' !in s then [s]
    else
      var i := IndexOf(s, '\n');
      assert s == s[..i + 1] + s[i + 1..];
      assert s[..i + 1][..i] == s[..i];
      [s[..i + 1]] + Lines(s[i + 1..])
  }

  /** There is only one way to cut a text into lines. */
  lemma {:induction false} LinesUnique(lines: seq<string>, s: string)
    requires IsLineSplit(lines, s)
    ensures lines == Lines(s)
  {
    if lines != [] {
      var l := lines[0];
      var rest := Concat(lines[1..]);
      assert s == l + rest;
      if l[|l| - 1] == '\n' {
        assert l == l[..|l| - 1] + ['\n'];
        IndexOfAfterField(l[..|l| - 1], '\n', rest);
        assert s == l[..|l| - 1] + ['\n'] + rest;
        assert s[..|l|] == l;
        assert s[|l|..] == rest;
        assert IsLineSplit(lines[1..], rest);
        LinesUnique(lines[1..], rest);
        assert lines == [l] + lines[1..];
      } else {
        assert |lines| == 1;
        assert rest == [];
        assert s == l;
        assert s == l[..|l| - 1] + [l[|l| - 1]];
      }
    }
  }

  /** Appending a closed line to a text that ends at a line boundary adds one line. */
  lemma AppendClosedLine(lines: seq<string>, s: string, l: string)
    requires IsLineSplit(lines, s)
    requires lines == [] || IsClosedLine(lines[|lines| - 1])
    requires IsClosedLine(l)
    ensures Lines(s + l) == lines + [l]
  {
    ConcatAppend(lines, l);
    LinesUnique(lines + [l], s + l);
  }

  /** `load_description`: the lines of the manifest, in file order, each with its
      newline, collected one character at a time. */
  method LoadDescription(content: string) returns (description: seq<string>)
    ensures description == Lines(content)
  {
    description := [];
    var line := "";
    for pos := 0 to |content|
      invariant Concat(description) + line == content[..pos]
      invariant forall i :: 0 <= i < |description| ==> IsClosedLine(description[i])
      invariant '\n' !in line
    {
      ConcatAppend(description, line + [content[pos]]);
      assert content[..pos + 1] == content[..pos] + [content[pos]];
      line := line + [content[pos]];
      if content[pos] == '\n' {
        assert line[..|line| - 1] == line[..|line| - 1];
        description := description + [line];
        line := "";
      }
    }
    assert content[..|content|] == content;
    if line != [] {
      ConcatAppend(description, line);
      description := description + [line];
    }
    LinesUnique(description, content);
  }

  /** The character of one decimal digit. */
  function DigitChar(d: nat): (c: char)
    requires d < 10
    ensures '0' <= c <= '9' && (c as int) - ('0' as int) == d
  {
    (('0' as int) + d) as char
  }

  /** The decimal digits of `n`, most significant first, without leading zeros. */
  function Digits(n: nat): (s: string)
    ensures |s| > 0
    ensures forall i :: 0 <= i < |s| ==> '0' <= s[i] <= '9'
    ensures s[0] == '0' ==> n == 0
    ensures s[0] == '0' ==> |s| == 1
  {
    if n < 10 then [DigitChar(n)] else Digits(n / 10) + [DigitChar(n % 10)]
  }

  /** The number a string of decimal digits denotes. */
  function DigitsValue(s: string): nat
    requires forall i :: 0 <= i < |s| ==> '0' <= s[i] <= '9'
  {
    if s == [] then 0 else 10 * DigitsValue(s[..|s| - 1]) + ((s[|s| - 1] as int) - ('0' as int))
  }

  lemma {:induction false} DigitsRoundTrip(n: nat)
    ensures DigitsValue(Digits(n)) == n
  {
    if n >= 10 {
      var s := Digits(n);
      assert s[..|s| - 1] == Digits(n / 10);
      DigitsRoundTrip(n / 10);
    }
  }

  /** How an f-string renders an `int`: a minus sign for negative numbers, then the digits. */
  function DecimalString(n: int): (s: string)
    ensures |s| > 0
    ensures forall i :: 0 <= i < |s| ==> s[i] == '-' || '0' <= s[i] <= '9'
    ensures (s[0] == '-') == (n < 0)
  {
    if n < 0 then "-" + Digits(-n) else Digits(n)
  }

  /** The `int` a rendered decimal denotes. */
  function DecimalValue(s: string): int
    requires |s| > 0
    requires forall i :: 0 <= i < |s| ==> s[i] == '-' || '0' <= s[i] <= '9'
    requires forall i :: 1 <= i < |s| ==> s[i] != '-'
  {
    if s[0] == '-' then 0 - DigitsValue(s[1..]) else DigitsValue(s)
  }

  /** Rendering an `int` loses nothing: its value can be read back. */
  lemma DecimalRoundTrip(n: int)
    ensures var s := DecimalString(n);
      && (forall i :: 1 <= i < |s| ==> s[i] != '-')
      && DecimalValue(s) == n
  {
    if n < 0 {
      assert DecimalString(n)[1..] == Digits(-n);
      DigitsRoundTrip(-n);
    } else {
      DigitsRoundTrip(n);
    }
  }
}
