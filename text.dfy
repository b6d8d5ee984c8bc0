/**
 * The string operations the puzzle reader is built from, as Rust's `str`
 * defines them: `trim`, `split` on one character, `lines`, and parsing a
 * `usize` (a 64-bit target is assumed).
 */
module Text {
  import opened Wrappers

  /** `char::is_whitespace`: the characters with the Unicode White_Space property. */
  predicate IsWhitespace(ch: char) {
    ch == ' ' || '\t' <= ch <= '\r' || ch == '\U{85}' || ch == '\U{A0}' || ch == '\U{1680}' ||
    '\U{2000}' <= ch <= '\U{200A}' || ch == '\U{2028}' || ch == '\U{2029}' || ch == '\U{202F}' ||
    ch == '\U{205F}' || ch == '\U{3000}'
  }

  /** `str::trim_start`: a suffix of `s`, with leading whitespace removed (see `TrimStartSpec`). */
  function TrimStart(s: string): (t: string)
    ensures |t| <= |s|
    decreases |s|
  {
    if |s| > 0 && IsWhitespace(s[0]) then TrimStart(s[1..]) else s
  }

  /** `TrimStart` removes whitespace only, and all of it: what is left does not start with whitespace. */
  lemma {:induction false} TrimStartSpec(s: string)
    ensures TrimStart(s) == s[|s| - |TrimStart(s)|..]
    ensures forall i :: 0 <= i < |s| - |TrimStart(s)| ==> IsWhitespace(s[i])
    ensures |TrimStart(s)| > 0 ==> !IsWhitespace(TrimStart(s)[0])
    decreases |s|
  {
    if |s| > 0 && IsWhitespace(s[0]) {
      TrimStartSpec(s[1..]);
      forall i | 0 < i < |s| - |TrimStart(s)| ensures IsWhitespace(s[i]) {
        assert s[i] == s[1..][i - 1];
      }
    }
  }

  /** `str::trim_end`: a prefix of `s`, with trailing whitespace removed (see `TrimEndSpec`). */
  function TrimEnd(s: string): (t: string)
    ensures |t| <= |s|
    decreases |s|
  {
    if |s| > 0 && IsWhitespace(s[|s| - 1]) then TrimEnd(s[..|s| - 1]) else s
  }

  /** `TrimEnd` removes whitespace only, and all of it: what is left does not end with whitespace. */
  lemma {:induction false} TrimEndSpec(s: string)
    ensures TrimEnd(s) == s[..|TrimEnd(s)|]
    ensures forall i :: |TrimEnd(s)| <= i < |s| ==> IsWhitespace(s[i])
    ensures |TrimEnd(s)| > 0 ==> !IsWhitespace(TrimEnd(s)[|TrimEnd(s)| - 1])
    decreases |s|
  {
    if |s| > 0 && IsWhitespace(s[|s| - 1]) {
      TrimEndSpec(s[..|s| - 1]);
      forall i | |TrimEnd(s)| <= i < |s| - 1 ensures IsWhitespace(s[i]) {
        assert s[i] == s[..|s| - 1][i];
      }
    }
  }

  /** `str::trim`: whitespace removed from both ends (see `TrimSpec`). */
  function Trim(s: string): (t: string)
    ensures |t| <= |s|
  {
    TrimEnd(TrimStart(s))
  }

  /**
   * What `Trim` leaves is empty exactly when the whole string is
   * whitespace, and otherwise starts and ends with a character that is not.
   */
  lemma TrimSpec(s: string)
    ensures Trim(s) == "" <==> forall i :: 0 <= i < |s| ==> IsWhitespace(s[i])
    ensures |Trim(s)| > 0 ==> !IsWhitespace(Trim(s)[0]) && !IsWhitespace(Trim(s)[|Trim(s)| - 1])
  {
    var u := TrimStart(s);
    var t := TrimEnd(u);
    TrimStartSpec(s);
    TrimEndSpec(u);
    if u != "" {
      assert u[0] == s[|s| - |u|];
    }
  }

  /** A string with no whitespace at either end is its own trim. */
  lemma TrimTrimmed(s: string)
    requires |s| > 0 ==> !IsWhitespace(s[0]) && !IsWhitespace(s[|s| - 1])
    ensures Trim(s) == s
  {
  }

  /** Trimming twice is trimming once. */
  lemma TrimIdempotent(s: string)
    ensures Trim(Trim(s)) == Trim(s)
  {
    TrimSpec(s);
    TrimTrimmed(Trim(s));
  }

  /** The pieces separated by `sep`, put back together with `sep` between them. */
  function Join(parts: seq<string>, sep: char): string
    requires |parts| > 0
    decreases |parts|
  {
    if |parts| == 1 then parts[0] else parts[0] + [sep] + Join(parts[1..], sep)
  }

  /** Adding a character in front of the first piece adds it in front of the joined string. */
  lemma {:induction false} JoinConsFirst(ch: char, parts: seq<string>, sep: char)
    requires |parts| > 0
    ensures Join([[ch] + parts[0]] + parts[1..], sep) == [ch] + Join(parts, sep)
  {
    var q := [[ch] + parts[0]] + parts[1..];
    if |parts| > 1 {
      assert q[1..] == parts[1..];
    }
  }

  /**
   * `str::split(sep)`: the maximal runs between occurrences of `sep`, empty
   * runs included, so a string with `k` separators has `k + 1` pieces. No
   * piece holds `sep`, and joining the pieces gives the string back.
   */
  function Split(s: string, sep: char): (parts: seq<string>)
    ensures |parts| > 0
    ensures forall i :: 0 <= i < |parts| ==> sep !in parts[i]
    ensures Join(parts, sep) == s
    decreases |s|
  {
    if |s| == 0 then [""]
    else
      var rest := Split(s[1..], sep);
      if s[0] == sep then
        assert ([""] + rest)[1..] == rest;
        assert s == [sep] + s[1..];
        [""] + rest
      else
        JoinConsFirst(s[0], rest, sep);
        assert s == [s[0]] + s[1..];
        [[s[0]] + rest[0]] + rest[1..]
  }

  /** Splitting a join of separator-free pieces gives the pieces back. */
  lemma {:induction false} SplitJoin(parts: seq<string>, sep: char)
    requires |parts| > 0
    requires forall i :: 0 <= i < |parts| ==> sep !in parts[i]
    ensures Split(Join(parts, sep), sep) == parts
    decreases |parts|, |parts[0]|
  {
    var s := Join(parts, sep);
    if |parts[0]| == 0 {
      if |parts| == 1 {
      } else {
        SplitJoin(parts[1..], sep);
        assert s == [sep] + Join(parts[1..], sep);
        assert s[1..] == Join(parts[1..], sep);
        assert [""] + parts[1..] == parts;
      }
    } else {
      var tail := [parts[0][1..]] + parts[1..];
      assert tail[1..] == parts[1..];
      assert forall i :: 0 <= i < |tail| ==> sep !in tail[i] by {
        assert forall ch :: ch in parts[0][1..] ==> ch in parts[0];
      }
      SplitJoin(tail, sep);
      JoinConsFirst(parts[0][0], tail, sep);
      assert [[parts[0][0]] + tail[0]] + tail[1..] == parts by {
        assert [parts[0][0]] + parts[0][1..] == parts[0];
      }
      assert s == [parts[0][0]] + Join(tail, sep);
      assert s[0] == parts[0][0] && s[0] != sep;
      assert s[1..] == Join(tail, sep);
    }
  }

  /** A line as `lines` yields it: a `\r` left before the `\n` is dropped. */
  function StripCr(line: string): string {
    if |line| > 0 && line[|line| - 1] == '\r' then line[..|line| - 1] else line
  }

  /**
   * `str::lines`: the text split at `\n`, with a `\r` right before a `\n`
   * removed and no final empty line after a closing `\n`. The empty text has
   * no lines, and no line holds a `\n`.
   */
  function Lines(s: string): (ls: seq<string>)
    ensures s == "" ==> ls == []
    ensures |ls| <= |Split(s, '\n')|
    ensures forall i :: 0 <= i < |ls| ==> '\n' !in ls[i]
  {
    if s == "" then []
    else
      var ps := Split(s, '\n');
      var ended := seq(|ps| - 1, i requires 0 <= i < |ps| - 1 => StripCr(ps[i]));
      assert forall i :: 0 <= i < |ended| ==> '\n' !in ended[i] by {
        forall i | 0 <= i < |ended| ensures '\n' !in ended[i] {
          assert forall ch :: ch in StripCr(ps[i]) ==> ch in ps[i];
        }
      }
      if ps[|ps| - 1] == "" then ended else ended + [ps[|ps| - 1]]
  }

  /**
   * The comma-separated fields of a clue line, as the reader takes them: the
   * trimmed line split at `,`, the first piece (the clue's name) dropped, and
   * every remaining piece trimmed.
   */
  function Fields(line: string): seq<string>
  {
    var pieces := Split(Trim(line), ',');
    seq(|pieces| - 1, i requires 0 <= i < |pieces| - 1 => Trim(pieces[i + 1]))
  }

  lemma FieldsShape(line: string)
    ensures |Fields(line)| + 1 == |Split(Trim(line), ',')|
    ensures forall i :: 0 <= i < |Fields(line)| ==> ',' !in Fields(line)[i] && Trim(Fields(line)[i]) == Fields(line)[i]
  {
    var pieces := Split(Trim(line), ',');
    forall i | 0 <= i < |Fields(line)| ensures ',' !in Fields(line)[i] && Trim(Fields(line)[i]) == Fields(line)[i] {
      TrimIdempotent(pieces[i + 1]);
      TrimInfix(pieces[i + 1]);
    }
  }

  /** Every character of the trimmed string is a character of the string. */
  lemma TrimInfix(s: string)
    ensures forall ch :: ch in Trim(s) ==> ch in s
  {
    var u := TrimStart(s);
    TrimStartSpec(s);
    TrimEndSpec(u);
    assert forall ch :: ch in TrimEnd(u) ==> ch in u;
    assert forall ch :: ch in u ==> ch in s;
  }

  /** One past the largest `usize` of a 64-bit target. */
  const UsizeLimit: nat := 0x1_0000_0000_0000_0000

  predicate IsDigit(ch: char) {
    '0' <= ch <= '9'
  }

  predicate AllDigits(s: string) {
    forall i :: 0 <= i < |s| ==> IsDigit(s[i])
  }

  /** The number a string of decimal digits writes, most significant digit first. */
  function DigitsValue(s: string): nat
    requires AllDigits(s)
    decreases |s|
  {
    if |s| == 0 then 0 else 10 * DigitsValue(s[..|s| - 1]) + (s[|s| - 1] as int - '0' as int)
  }

  /**
   * `usize::from_str`: an optional `+` followed by at least one decimal
   * digit and nothing else, whose value fits in 64 bits. Anything else (the
   * empty string, a lone `+`, a `-`, any other character, an overflow) is a
   * `ParseIntError`, here `None`.
   */
  function ParseUsize(s: string): (r: Option<nat>)
    ensures r.Some? ==> r.value < UsizeLimit
    ensures r.Some? ==> |s| > 0 && (IsDigit(s[0]) || (s[0] == '+' && |s| > 1))
  {
    var digits := if |s| > 0 && s[0] == '+' then s[1..] else s;
    if |digits| == 0 || !AllDigits(digits) then None
    else if DigitsValue(digits) >= UsizeLimit then None
    else Some(DigitsValue(digits))
  }

  /** The decimal digits of `n` with no leading zero, as `usize`'s `to_string` prints it. */
  function Decimal(n: nat): (s: string)
    ensures |s| > 0 && AllDigits(s)
    decreases n
  {
    var last := ['0' + (n % 10) as char];
    if n < 10 then last else Decimal(n / 10) + last
  }

  /** The digits of `n` have the value `n`. */
  lemma {:induction false} DecimalValue(n: nat)
    ensures DigitsValue(Decimal(n)) == n
    decreases n
  {
    var s := Decimal(n);
    if n >= 10 {
      DecimalValue(n / 10);
      assert s[..|s| - 1] == Decimal(n / 10);
    }
  }

  /** Printing a `usize` and parsing it back gives the number again. */
  lemma ParseDecimal(n: nat)
    requires n < UsizeLimit
    ensures ParseUsize(Decimal(n)) == Some(n)
  {
    DecimalValue(n);
  }
}
