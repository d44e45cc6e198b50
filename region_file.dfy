/** The per-line parse of iter_regions: strip the line, split it on tabs,
    take the first three fields as chromosome, start and end, and convert
    start and end with int(). Reading the (optionally gzipped) file is not
    part of this module: its lines are given as a sequence of strings. */
module RegionFile {
  import opened Outcomes

  /** A region as the parser yields it. The source validates neither
      start <= end nor start >= 0, and neither does the model. */
  datatype Region = Region(chrom: string, start: int, end: int)

  /** Python's str.isspace for one character: the ASCII controls 9 to 13
      and 28 to 31, space, and the Unicode space separators. This is the
      set str.strip() removes. */
  predicate IsSpace(c: char) {
    c == ' ' || ('\t' <= c <= '\r') || ('\U{1C}' <= c <= '\U{1F}') ||
    c == '\U{85}' || c == '\U{A0}' || c == '\U{1680}' || ('\U{2000}' <= c <= '\U{200A}') ||
    c == '\U{2028}' || c == '\U{2029}' || c == '\U{202F}' || c == '\U{205F}' || c == '\U{3000}'
  }

  /** The whitespace int() skips around a number. CPython turns every
      non-ASCII whitespace character into a space and then skips only space
      and the controls 9 to 13, so the ASCII separators 28 to 31, which
      str.isspace accepts, are not skipped and make int() fail. */
  predicate IsIntSpace(c: char) {
    IsSpace(c) && !('\U{1C}' <= c <= '\U{1F}')
  }

  predicate AllBlank(s: string, blank: char -> bool) {
    forall i :: 0 <= i < |s| ==> blank(s[i])
  }

  /** lstrip over the characters blank accepts: the suffix left after
      removing the leading ones. */
  function StripLeft(s: string, blank: char -> bool): (r: string)
    ensures |r| <= |s| && r == s[|s| - |r|..] && AllBlank(s[..|s| - |r|], blank)
    ensures r == [] || !blank(r[0])
    decreases |s|
  {
    if s != [] && blank(s[0]) then
      var r := StripLeft(s[1..], blank);
      StripLeftStep(s, r, blank);
      r
    else s
  }

  lemma {:induction false} StripLeftStep(s: string, r: string, blank: char -> bool)
    requires s != [] && blank(s[0])
    requires |r| <= |s| - 1 && r == s[1..][|s| - 1 - |r|..] && AllBlank(s[1..][..|s| - 1 - |r|], blank)
    ensures r == s[|s| - |r|..] && AllBlank(s[..|s| - |r|], blank)
  {
    var n := |s| - |r|;
    forall i | 0 <= i < n ensures blank(s[..n][i]) {
      if i > 0 {
        assert s[..n][i] == s[1..][..n - 1][i - 1];
      }
    }
  }

  /** rstrip over the characters blank accepts: the prefix left after
      removing the trailing ones. */
  function StripRight(s: string, blank: char -> bool): (r: string)
    ensures |r| <= |s| && r == s[..|r|] && AllBlank(s[|r|..], blank)
    ensures r == [] || !blank(r[|r| - 1])
    decreases |s|
  {
    if s != [] && blank(s[|s| - 1]) then
      var init := s[..|s| - 1];
      var r := StripRight(init, blank);
      assert s[..|r|] == init[..|r|];
      assert forall i :: |r| <= i < |s| - 1 ==> s[i] == init[i];
      r
    else s
  }

  /** Both ends stripped: what is left has no blank at either end. */
  function Trim(s: string, blank: char -> bool): (r: string)
    ensures |r| <= |s|
    ensures r == [] || (!blank(r[0]) && !blank(r[|r| - 1]))
  {
    var l := StripLeft(s, blank);
    var r := StripRight(l, blank);
    assert r != [] ==> r[0] == l[0];
    r
  }

  /** What Trim keeps is the middle of s: a blank prefix and a blank
      suffix are removed and nothing else. */
  lemma {:induction false} TrimIsMiddle(s: string, blank: char -> bool)
    ensures var a := |s| - |StripLeft(s, blank)|;
            var r := Trim(s, blank);
            a + |r| <= |s| &&
            (forall i :: 0 <= i < |r| ==> r[i] == s[a + i]) &&
            (forall i :: 0 <= i < a ==> blank(s[i])) &&
            (forall i :: a + |r| <= i < |s| ==> blank(s[i]))
  {
    TrimBlankBefore(s, blank);
    TrimKeeps(s, blank);
    TrimBlankAfter(s, blank);
  }

  lemma {:induction false} TrimBlankBefore(s: string, blank: char -> bool)
    ensures forall i :: 0 <= i < |s| - |StripLeft(s, blank)| ==> blank(s[i])
  {
    BlankPrefix(s, |s| - |StripLeft(s, blank)|, blank);
  }

  lemma {:induction false} BlankPrefix(s: string, a: nat, blank: char -> bool)
    requires a <= |s| && AllBlank(s[..a], blank)
    ensures forall i :: 0 <= i < a ==> blank(s[i])
  {
    forall i | 0 <= i < a ensures blank(s[i]) { assert s[..a][i] == s[i]; }
  }

  lemma {:induction false} TrimKeeps(s: string, blank: char -> bool)
    ensures |s| - |StripLeft(s, blank)| + |Trim(s, blank)| <= |s|
    ensures forall i :: 0 <= i < |Trim(s, blank)| ==>
              Trim(s, blank)[i] == s[|s| - |StripLeft(s, blank)| + i]
  {
    KeptSlice(s, StripLeft(s, blank), Trim(s, blank));
  }

  lemma {:induction false} TrimBlankAfter(s: string, blank: char -> bool)
    ensures forall i :: |s| - |StripLeft(s, blank)| + |Trim(s, blank)| <= i < |s| ==> blank(s[i])
  {
    BlankSuffix(s, StripLeft(s, blank), |Trim(s, blank)|, blank);
  }

  /** A prefix r of a suffix l of s sits in s right after what l leaves out. */
  lemma {:induction false} KeptSlice(s: string, l: string, r: string)
    requires |l| <= |s| && l == s[|s| - |l|..] && |r| <= |l| && r == l[..|r|]
    ensures |s| - |l| + |r| <= |s|
    ensures forall i :: 0 <= i < |r| ==> r[i] == s[|s| - |l| + i]
  {
    forall i | 0 <= i < |r| ensures r[i] == s[|s| - |l| + i] {
      assert r[i] == l[i];
    }
  }

  /** The blank tail of a suffix l of s is a blank tail of s. */
  lemma {:induction false} BlankSuffix(s: string, l: string, n: nat, blank: char -> bool)
    requires |l| <= |s| && l == s[|s| - |l|..] && n <= |l| && AllBlank(l[n..], blank)
    ensures forall i :: |s| - |l| + n <= i < |s| ==> blank(s[i])
  {
    var a := |s| - |l|;
    forall i | a + n <= i < |s| ensures blank(s[i]) {
      assert l[n..][i - a - n] == s[i];
    }
  }

  /** str.strip() */
  function Strip(s: string): string {
    Trim(s, IsSpace)
  }

  /** Blanks after the last non-blank character are what rstrip removes. */
  lemma {:induction false} StripRightTrailing(x: string, t: string, blank: char -> bool)
    requires x != [] && !blank(x[|x| - 1]) && AllBlank(t, blank)
    ensures StripRight(x + t, blank) == x
    decreases |t|
  {
    if t == [] {
      assert x + t == x;
    } else {
      var t' := t[..|t| - 1];
      assert (x + t)[..|x + t| - 1] == x + t';
      assert (x + t)[|x + t| - 1] == t[|t| - 1];
      StripRightTrailing(x, t', blank);
    }
  }

  /** A string with non-blank characters at both ends is left as it is,
      whatever blanks follow it. */
  lemma {:induction false} StripTrailing(x: string, t: string, blank: char -> bool)
    requires x != [] && !blank(x[0]) && !blank(x[|x| - 1]) && AllBlank(t, blank)
    ensures Trim(x + t, blank) == x
  {
    assert (x + t)[0] == x[0];
    StripRightTrailing(x, t, blank);
  }

  /** Blanks before a non-blank character are what lstrip removes. */
  lemma {:induction false} StripLeftLeading(l: string, y: string, blank: char -> bool)
    requires y != [] && !blank(y[0]) && AllBlank(l, blank)
    ensures StripLeft(l + y, blank) == y
    decreases |l|
  {
    if l == [] {
      assert l + y == y;
    } else {
      assert (l + y)[0] == l[0];
      assert (l + y)[1..] == l[1..] + y;
      StripLeftLeading(l[1..], y, blank);
    }
  }

  /** A string with non-blank ends between any blanks is what Trim keeps. */
  lemma {:induction false} StripSurrounding(l: string, x: string, t: string, blank: char -> bool)
    requires x != [] && !blank(x[0]) && !blank(x[|x| - 1])
    requires AllBlank(l, blank) && AllBlank(t, blank)
    ensures Trim(l + x + t, blank) == x
  {
    assert l + x + t == l + (x + t);
    assert (x + t)[0] == x[0];
    StripLeftLeading(l, x + t, blank);
    StripRightTrailing(x, t, blank);
  }

  /** Text with non-blank characters at both ends is its own trim. */
  lemma {:induction false} StripClean(x: string, blank: char -> bool)
    requires x != [] && !blank(x[0]) && !blank(x[|x| - 1])
    ensures Trim(x, blank) == x
  {
    assert StripLeft(x, blank) == x;
  }

  /** str.split(sep) with an explicit separator: fields may be empty, and
      there is always at least one. */
  function Split(s: string, sep: char): (fields: seq<string>)
    ensures |fields| >= 1
    ensures forall i :: 0 <= i < |fields| ==> sep !in fields[i]
    decreases |s|
  {
    if s == [] then [[]]
    else
      var rest := Split(s[1..], sep);
      if s[0] == sep then [[]] + rest
      else
        var r := [[s[0]] + rest[0]] + rest[1..];
        assert forall i :: 1 <= i < |r| ==> r[i] == rest[i];
        r
  }

  /** sep.join(fields) */
  function Join(fields: seq<string>, sep: char): string
    requires |fields| >= 1
    decreases |fields|
  {
    if |fields| == 1 then fields[0] else fields[0] + [sep] + Join(fields[1..], sep)
  }

  /** Splitting loses nothing: joining the fields gives the string back. */
  lemma {:induction false} JoinSplit(s: string, sep: char)
    ensures Join(Split(s, sep), sep) == s
    decreases |s|
  {
    if s != [] {
      var rest := Split(s[1..], sep);
      JoinSplit(s[1..], sep);
      if s[0] == sep {
        assert Split(s, sep)[1..] == rest;
        assert s == [] + [sep] + s[1..];
      } else {
        var r := Split(s, sep);
        assert r[0] == [s[0]] + rest[0];
        if |rest| == 1 {
          assert s == [s[0]] + s[1..];
        } else {
          assert r[1..] == rest[1..];
          assert Join(rest, sep) == rest[0] + [sep] + Join(rest[1..], sep);
          assert s == [s[0]] + s[1..];
        }
      }
    }
  }

  lemma {:induction false} SplitField(a: string, sep: char)
    requires sep !in a
    ensures Split(a, sep) == [a]
    decreases |a|
  {
    if a != [] {
      assert sep !in a[1..] by { forall i | 0 <= i < |a[1..]| ensures a[1..][i] != sep { assert a[1..][i] == a[i + 1]; } }
      SplitField(a[1..], sep);
      assert [a[0]] + a[1..] == a;
    }
  }

  lemma {:induction false} SplitFieldThenRest(a: string, sep: char, b: string)
    requires sep !in a
    ensures Split(a + [sep] + b, sep) == [a] + Split(b, sep)
    decreases |a|
  {
    var s := a + [sep] + b;
    if a == [] {
      assert s[0] == sep && s[1..] == b;
    } else {
      assert sep !in a[1..] by { forall i | 0 <= i < |a[1..]| ensures a[1..][i] != sep { assert a[1..][i] == a[i + 1]; } }
      SplitFieldThenRest(a[1..], sep, b);
      assert s[0] == a[0] && s[1..] == a[1..] + [sep] + b;
      assert [a[0]] + a[1..] == a;
    }
  }

  /** And fields without the separator come back from their join. */
  lemma {:induction false} SplitJoin(fields: seq<string>, sep: char)
    requires |fields| >= 1
    requires forall i :: 0 <= i < |fields| ==> sep !in fields[i]
    ensures Split(Join(fields, sep), sep) == fields
    decreases |fields|
  {
    if |fields| == 1 {
      SplitField(fields[0], sep);
    } else {
      SplitJoin(fields[1..], sep);
      SplitFieldThenRest(fields[0], sep, Join(fields[1..], sep));
      assert [fields[0]] + fields[1..] == fields;
    }
  }

  predicate IsDigit(c: char) {
    '0' <= c <= '9'
  }

  predicate AllDigits(s: string) {
    forall i :: 0 <= i < |s| ==> IsDigit(s[i])
  }

  /** The value of a string of decimal digits, most significant first
      (leading zeros are allowed, as int() allows them). */
  function DecimalValue(s: string): nat
    requires AllDigits(s)
    decreases |s|
  {
    if s == [] then 0
    else
      var n := |s| - 1;
      assert AllDigits(s[..n]) by { forall i | 0 <= i < n ensures IsDigit(s[..n][i]) { assert s[..n][i] == s[i]; } }
      10 * DecimalValue(s[..n]) + (s[n] as int - '0' as int)
  }

  /** int(text) for plain decimal text: whitespace that int() skips, an
      optional sign, then at least one ASCII digit. Anything else raises
      ValueError. */
  function ParseInt(text: string): (r: Result<int>)
    ensures r.Err? ==> r.error == NotAnInteger(text)
  {
    match SignedValue(Trim(text, IsIntSpace))
    case None => Err(NotAnInteger(text))
    case Some(v) => Ok(v)
  }

  /** The value of stripped text: an optional sign followed by at least one
      digit, and nothing else. */
  function SignedValue(t: string): Option<int> {
    var negative := |t| > 0 && t[0] == '-';
    var digits := if |t| > 0 && (t[0] == '-' || t[0] == '+') then t[1..] else t;
    if digits != [] && AllDigits(digits) then
      var magnitude: int := DecimalValue(digits);
      Some(if negative then -magnitude else magnitude)
    else None
  }

  /** The decimal digits of n, with no leading zero. */
  function Decimal(n: nat): (s: string)
    ensures s != [] && AllDigits(s) && DecimalValue(s) == n
    decreases n
  {
    var last := ['0' + (n % 10) as char];
    if n < 10 then last
    else
      var s := Decimal(n / 10) + last;
      assert s[..|s| - 1] == Decimal(n / 10);
      s
  }

  /** str(n) */
  function Show(n: int): (s: string)
    ensures s != [] && !IsSpace(s[0]) && !IsSpace(s[|s| - 1]) && '\t' !in s
  {
    if n < 0 then "-" + Decimal(-n) else Decimal(n)
  }

  /** int() reads back what str() writes, with any whitespace of the kind
      int() skips before and after it. */
  lemma {:induction false} ParseShow(n: int, l: string, t: string)
    requires AllBlank(l, IsIntSpace) && AllBlank(t, IsIntSpace)
    ensures ParseInt(l + Show(n) + t) == Ok(n)
  {
    var x := Show(n);
    assert !IsIntSpace(x[0]) && !IsIntSpace(x[|x| - 1]);
    StripSurrounding(l, x, t, IsIntSpace);
    SignedShow(n);
  }

  /** int(str(n)) == n */
  lemma {:induction false} ParseShowExact(n: int)
    ensures ParseInt(Show(n)) == Ok(n)
  {
    var x := Show(n);
    assert !IsIntSpace(x[0]) && !IsIntSpace(x[|x| - 1]);
    StripClean(x, IsIntSpace);
    SignedShow(n);
  }

  /** str.strip() removes a trailing ASCII separator (characters 28 to 31)
      but int() does not skip it: int("5\x1c") raises although
      "5\x1c".strip() == "5". */
  lemma {:induction false} IntRejectsSeparator(d: string, c: char)
    requires d != [] && AllDigits(d) && '\U{1C}' <= c <= '\U{1F}'
    ensures Strip(d + [c]) == d
    ensures ParseInt(d + [c]) == Err(NotAnInteger(d + [c]))
  {
    StripRemovesSeparator(d, c);
    IntKeepsSeparator(d + [c]);
  }

  lemma {:induction false} StripRemovesSeparator(d: string, c: char)
    requires d != [] && AllDigits(d) && '\U{1C}' <= c <= '\U{1F}'
    ensures Strip(d + [c]) == d
  {
    assert !IsSpace(d[0]) && !IsSpace(d[|d| - 1]) && AllBlank([c], IsSpace);
    StripTrailing(d, [c], IsSpace);
  }

  /** Text that starts with a digit and ends with a separator is neither
      trimmed by int() nor a numeral. */
  lemma {:induction false} IntKeepsSeparator(x: string)
    requires |x| >= 2 && IsDigit(x[0]) && '\U{1C}' <= x[|x| - 1] <= '\U{1F}'
    ensures ParseInt(x) == Err(NotAnInteger(x))
  {
    assert SignedValue(x) == None by { Unsigned(x, |x| - 1); }
    assert Trim(x, IsIntSpace) == x by { StripClean(x, IsIntSpace); }
    NoValue(x);
  }

  /** Text that int() leaves untrimmed and that is no signed numeral is
      rejected. */
  lemma {:induction false} NoValue(text: string)
    requires Trim(text, IsIntSpace) == text && SignedValue(text) == None
    ensures ParseInt(text) == Err(NotAnInteger(text))
  {
  }

  /** Text without a sign must be all digits. */
  lemma {:induction false} Unsigned(t: string, i: nat)
    requires i < |t| && t[0] != '-' && t[0] != '+' && !IsDigit(t[i])
    ensures SignedValue(t) == None
  {
  }

  lemma {:induction false} SignedShow(n: int)
    ensures SignedValue(Show(n)) == Some(n)
  {
    if n < 0 {
      assert Show(n)[0] == '-';
      assert Show(n)[1..] == Decimal(-n);
    } else {
      assert IsDigit(Show(n)[0]);
    }
  }

  /** One line of the region file: fields[:3] unpacks into chromosome,
      start and end; fewer than three fields is a ValueError, and so is a
      start or end that int() rejects (start is converted first). */
  function ParseLine(line: string): (r: Result<Region>)
    ensures var data := Split(Strip(line), '\t');
            (r.Ok? <==> |data| >= 3 && ParseInt(data[1]).Ok? && ParseInt(data[2]).Ok?) &&
            (|data| < 3 ==> r == Err(TooFewFields(|data|))) &&
            (|data| >= 3 && ParseInt(data[1]).Err? ==> r == Err(NotAnInteger(data[1]))) &&
            (|data| >= 3 && ParseInt(data[1]).Ok? && ParseInt(data[2]).Err? ==>
               r == Err(NotAnInteger(data[2]))) &&
            (r.Ok? ==> r.value == Region(data[0], ParseInt(data[1]).value, ParseInt(data[2]).value))
    ensures r.Ok? ==> '\t' !in r.value.chrom
  {
    var data := Split(Strip(line), '\t');
    if |data| < 3 then Err(TooFewFields(|data|))
    else
      match ParseInt(data[1])
      case Err(e) => Err(e)
      case Ok(start) =>
        match ParseInt(data[2])
        case Err(e) => Err(e)
        case Ok(end) => Ok(Region(data[0], start, end))
  }

  /** The line a BED-like writer produces for a region. */
  function FormatLine(r: Region): string {
    r.chrom + "\t" + Show(r.start) + "\t" + Show(r.end)
  }

  /** Stripping and splitting a written line gives its three fields. */
  lemma {:induction false} FormatLineFields(r: Region, newline: string)
    requires r.chrom != [] && !IsSpace(r.chrom[0]) && '\t' !in r.chrom
    requires AllBlank(newline, IsSpace)
    ensures Split(Strip(FormatLine(r) + newline), '\t') == [r.chrom, Show(r.start), Show(r.end)]
  {
    var fields := [r.chrom, Show(r.start), Show(r.end)];
    var line := FormatLine(r);
    JoinThree(r.chrom, Show(r.start), Show(r.end), '\t');
    assert line == Join(fields, '\t');
    assert line[0] == r.chrom[0];
    assert line[|line| - 1] == Show(r.end)[|Show(r.end)| - 1];
    StripTrailing(line, newline, IsSpace);
    SplitJoinThree(r.chrom, Show(r.start), Show(r.end), '\t');
  }

  lemma {:induction false} JoinThree(a: string, b: string, c: string, sep: char)
    ensures Join([a, b, c], sep) == a + [sep] + b + [sep] + c
  {
    var fields := [a, b, c];
    assert fields[1..] == [b, c];
    assert fields[1..][1..] == [c];
    assert Join(fields[1..], sep) == b + [sep] + c;
  }

  lemma {:induction false} SplitJoinThree(a: string, b: string, c: string, sep: char)
    requires sep !in a && sep !in b && sep !in c
    ensures Split(Join([a, b, c], sep), sep) == [a, b, c]
  {
    var fields := [a, b, c];
    forall i | 0 <= i < 3 ensures sep !in fields[i] {
      if i == 0 { assert fields[i] == a; }
      else if i == 1 { assert fields[i] == b; }
      else { assert fields[i] == c; }
    }
    SplitJoin(fields, sep);
  }

  /** Parsing a written line, newline included, gives the region back,
      provided the chromosome name is non-empty, has no tab, and does not
      start with whitespace (strip() would remove it). */
  lemma {:induction false} ParseFormatLine(r: Region, newline: string)
    requires r.chrom != [] && !IsSpace(r.chrom[0]) && '\t' !in r.chrom
    requires AllBlank(newline, IsSpace)
    ensures ParseLine(FormatLine(r) + newline) == Ok(r)
  {
    var data := Split(Strip(FormatLine(r) + newline), '\t');
    FormatLineFields(r, newline);
    assert data[0] == r.chrom && data[1] == Show(r.start) && data[2] == Show(r.end);
    ParseShowExact(r.start);
    ParseShowExact(r.end);
  }

  /** The lines iter_regions yields from, parsed in file order; the first
      malformed line ends the iteration with its error. */
  function IterRegions(lines: seq<string>): Result<seq<Region>> {
    MapAll(ParseLine, lines)
  }

  /** One region per line, in line order, or the first line's error. */
  lemma {:induction false} IterRegionsSpec(lines: seq<string>)
    ensures IterRegions(lines).Ok? <==> forall i :: 0 <= i < |lines| ==> ParseLine(lines[i]).Ok?
    ensures IterRegions(lines).Ok? ==>
              |IterRegions(lines).value| == |lines| &&
              forall i :: 0 <= i < |lines| ==> IterRegions(lines).value[i] == ParseLine(lines[i]).value
    ensures IterRegions(lines).Err? ==>
              (exists i :: 0 <= i < |lines| && ParseLine(lines[i]).Err?) &&
              IterRegions(lines).error == ParseLine(lines[FirstFailure(ParseLine, lines)]).error
  {
    MapAllSpec(ParseLine, lines);
  }
}
