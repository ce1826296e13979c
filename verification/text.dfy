/** String primitives the source gets from Python's `format`, `str.replace`,
    `str.strip` and `in`: hexadecimal and decimal fields, substring search,
    replace-all, whitespace stripping and left-aligned padding. */
module Text {

  /** The escape character that opens terminal control sequences. */
  const Esc: char := 27 as char

  const LowerDigits: string := "0123456789abcdef"
  const UpperDigits: string := "0123456789ABCDEF"

  function HexChar(d: nat, upper: bool): (c: char)
    requires d < 16
  {
    if upper then UpperDigits[d] else LowerDigits[d]
  }

  /** Value of one hexadecimal digit of either case, -1 for anything else. */
  function HexCharValue(c: char): int
  {
    if '0' <= c <= '9' then c as int - '0' as int
    else if 'a' <= c <= 'f' then c as int - 'a' as int + 10
    else if 'A' <= c <= 'F' then c as int - 'A' as int + 10
    else -1
  }

  lemma HexCharRoundTrip(d: nat, upper: bool)
    requires d < 16
    ensures HexCharValue(HexChar(d, upper)) == d
  {
  }

  /** Hexadecimal digits of n, most significant first, no leading zeros. */
  function HexDigits(n: nat, upper: bool): (s: string)
    ensures 1 <= |s|
    ensures n < 16 <==> |s| == 1
    ensures n < 256 ==> |s| <= 2
  {
    if n < 16 then [HexChar(n, upper)] else HexDigits(n / 16, upper) + [HexChar(n % 16, upper)]
  }

  /** The number a string of hexadecimal digits denotes. */
  function HexValue(s: string): int
  {
    if |s| == 0 then 0 else HexValue(s[..|s| - 1]) * 16 + HexCharValue(s[|s| - 1])
  }

  lemma {:induction false} HexDigitsRoundTrip(n: nat, upper: bool)
    ensures HexValue(HexDigits(n, upper)) == n
    decreases n
  {
    var s := HexDigits(n, upper);
    if n < 16 {
      HexCharRoundTrip(n, upper);
      assert s[..0] == [];
    } else {
      HexDigitsRoundTrip(n / 16, upper);
      HexCharRoundTrip(n % 16, upper);
      assert s[..|s| - 1] == HexDigits(n / 16, upper);
    }
  }

  /** Python `format(n, "02x")` (or "02X"): a sign for negatives, then the digits
      zero-padded to a total width of two. */
  function HexField(n: int, upper: bool): (s: string)
    ensures 0 <= n < 256 ==> |s| == 2
    ensures 2 <= |s|
  {
    if n < 0 then "-" + HexDigits(-n, upper)
    else
      var d := HexDigits(n, upper);
      if |d| < 2 then "0" + d else d
  }

  /** A channel in 0..255 renders as two characters of the digit alphabet. */
  lemma HexFieldDigits(n: int, upper: bool)
    requires 0 <= n < 256
    ensures forall k :: 0 <= k < |HexField(n, upper)| ==>
      HexField(n, upper)[k] in (if upper then UpperDigits else LowerDigits)
  {
    var s := HexField(n, upper);
    if n < 16 {
      assert s == ['0', HexChar(n, upper)];
    } else {
      assert HexDigits(n / 16, upper) == [HexChar(n / 16, upper)];
      assert s == [HexChar(n / 16, upper), HexChar(n % 16, upper)];
    }
  }

  /** A channel in 0..255 renders as two digits that read back as itself. */
  lemma HexFieldRoundTrip(n: int, upper: bool)
    requires 0 <= n < 256
    ensures HexValue(HexField(n, upper)) == n
  {
    var s := HexField(n, upper);
    if n < 16 {
      var c := HexChar(n, upper);
      assert s == ['0', c];
      assert s[..1] == ['0'];
      assert ['0'][..0] == [];
      assert HexValue(['0']) == 0;
      HexCharRoundTrip(n, upper);
    } else {
      var hi := HexChar(n / 16, upper);
      var lo := HexChar(n % 16, upper);
      assert HexDigits(n / 16, upper) == [hi];
      assert HexDigits(n, upper) == [hi, lo];
      assert s == [hi, lo];
      assert s[..1] == [hi];
      assert [hi][..0] == [];
      HexCharRoundTrip(n / 16, upper);
      HexCharRoundTrip(n % 16, upper);
      assert HexValue([hi]) == n / 16;
    }
  }

  function DecimalDigits(n: nat): (s: string)
    ensures 1 <= |s|
    ensures forall i :: 0 <= i < |s| ==> '0' <= s[i] <= '9'
  {
    if n < 10 then [(n + '0' as int) as char] else DecimalDigits(n / 10) + [((n % 10) + '0' as int) as char]
  }

  /** Python `str(n)` / f"{n}" for an int. */
  function Decimal(n: int): (s: string)
    ensures 1 <= |s|
  {
    if n < 0 then "-" + DecimalDigits(-n) else DecimalDigits(n)
  }

  function DecimalValue(s: string): int
  {
    if |s| == 0 then 0 else DecimalValue(s[..|s| - 1]) * 10 + (s[|s| - 1] as int - '0' as int)
  }

  /** Reading a decimal back: the inverse of `Decimal`. */
  function ParseInt(s: string): int
  {
    if |s| > 0 && s[0] == '-' then -DecimalValue(s[1..]) else DecimalValue(s)
  }

  lemma {:induction false} DecimalDigitsRoundTrip(n: nat)
    ensures DecimalValue(DecimalDigits(n)) == n
    decreases n
  {
    var s := DecimalDigits(n);
    if n < 10 {
      assert s[..0] == [];
    } else {
      DecimalDigitsRoundTrip(n / 10);
      assert s[..|s| - 1] == DecimalDigits(n / 10);
    }
  }

  lemma DecimalRoundTrip(n: int)
    ensures ParseInt(Decimal(n)) == n
  {
    if n < 0 {
      DecimalDigitsRoundTrip(-n);
      assert Decimal(n)[1..] == DecimalDigits(-n);
    } else {
      DecimalDigitsRoundTrip(n);
    }
  }

  /** A decimal is an optional minus sign followed by digits. */
  lemma DecimalAlphabet(n: int)
    ensures forall k :: 0 <= k < |Decimal(n)| ==> Decimal(n)[k] == '-' || '0' <= Decimal(n)[k] <= '9'
  {
    if n < 0 {
      var d := DecimalDigits(-n);
      assert forall k :: 1 <= k < |Decimal(n)| ==> Decimal(n)[k] == d[k - 1];
    }
  }

  /** Python `s.split(sep)` for a one-character separator: the pieces
      between separators, at least one. */
  function Split(s: string, sep: char): (parts: seq<string>)
    ensures |parts| >= 1
  {
    if |s| == 0 then [""]
    else
      var rest := Split(s[1..], sep);
      if s[0] == sep then [""] + rest else [[s[0]] + rest[0]] + rest[1..]
  }

  /** `sep.join(parts)`. */
  function Join(parts: seq<string>, sep: char): string
    requires |parts| >= 1
  {
    if |parts| == 1 then parts[0] else parts[0] + [sep] + Join(parts[1..], sep)
  }

  /** A piece without the separator is glued onto the first piece of what
      follows it. */
  lemma {:induction false} SplitPrefix(a: string, t: string, sep: char)
    requires sep !in a
    ensures Split(a + t, sep) == [a + Split(t, sep)[0]] + Split(t, sep)[1..]
    decreases |a|
  {
    var rest := Split(t, sep);
    if |a| > 0 {
      SplitPrefix(a[1..], t, sep);
      assert (a + t)[0] == a[0] && a[0] != sep;
      assert (a + t)[1..] == a[1..] + t;
      assert [a[0]] + (a[1..] + rest[0]) == a + rest[0];
    } else {
      assert a + t == t;
      assert a + rest[0] == rest[0];
      assert rest == [rest[0]] + rest[1..];
    }
  }

  /** Splitting undoes joining pieces that do not contain the separator. */
  lemma {:induction false} SplitJoin(parts: seq<string>, sep: char)
    requires |parts| >= 1
    requires forall i :: 0 <= i < |parts| ==> sep !in parts[i]
    ensures Split(Join(parts, sep), sep) == parts
  {
    if |parts| == 1 {
      SplitPrefix(parts[0], "", sep);
      assert parts[0] + "" == parts[0];
    } else {
      var tail := parts[1..];
      SplitJoin(tail, sep);
      var t := [sep] + Join(tail, sep);
      assert t[0] == sep && t[1..] == Join(tail, sep);
      assert Split(t, sep) == [""] + tail;
      SplitPrefix(parts[0], t, sep);
      assert parts[0] + [sep] + Join(tail, sep) == parts[0] + t;
      assert parts[0] + "" == parts[0];
      assert parts == [parts[0]] + tail;
    }
  }

  /** `pat` occurs in `s` at position i. */
  predicate OccursAt(s: string, pat: string, i: nat)
  {
    i + |pat| <= |s| && s[i..i + |pat|] == pat
  }

  /** Python `pat in s`. */
  predicate Contains(s: string, pat: string)
  {
    exists i: nat | i <= |s| :: OccursAt(s, pat, i)
  }

  /** Python `s.startswith(p)`. */
  predicate PrefixOf(p: string, s: string)
  {
    |p| <= |s| && s[..|p|] == p
  }

  /** The same test, character by character: the form the scan of
      `Replace` uses. */
  predicate StartsWith(s: string, pat: string)
    ensures StartsWith(s, pat) ==> |pat| <= |s|
    decreases |pat|
  {
    |pat| == 0 || (|s| > 0 && s[0] == pat[0] && StartsWith(s[1..], pat[1..]))
  }

  lemma {:induction false} StartsWithPrefix(s: string, pat: string)
    ensures StartsWith(s, pat) <==> PrefixOf(pat, s)
    decreases |pat|
  {
    if |pat| > 0 && |s| > 0 {
      StartsWithPrefix(s[1..], pat[1..]);
      if |pat| <= |s| {
        assert s[..|pat|] == [s[0]] + s[1..][..|pat| - 1];
        assert pat == [pat[0]] + pat[1..];
      }
    }
  }

  /** Python `s.replace(pat, rep)`: every non-overlapping occurrence of `pat`,
      scanning left to right, becomes `rep`; an empty `pat` inserts `rep`
      before every character and at the end. */
  function Replace(s: string, pat: string, rep: string): (r: string)
    decreases |s|
  {
    if |pat| == 0 then
      if |s| == 0 then rep else rep + [s[0]] + Replace(s[1..], pat, rep)
    else if |s| == 0 then ""
    else if StartsWith(s, pat) then rep + Replace(s[|pat|..], pat, rep)
    else [s[0]] + Replace(s[1..], pat, rep)
  }

  /** Replacing a non-empty pattern that does not occur changes nothing. */
  lemma {:induction false} ReplaceAbsent(s: string, pat: string, rep: string)
    requires |pat| > 0 && !Contains(s, pat)
    ensures Replace(s, pat, rep) == s
    decreases |s|
  {
    if |s| > 0 {
      assert !OccursAt(s, pat, 0);
      StartsWithPrefix(s, pat);
      assert |pat| <= |s| ==> s[0..|pat|] == s[..|pat|];
      assert !Contains(s[1..], pat) by {
        forall i: nat | OccursAt(s[1..], pat, i)
          ensures OccursAt(s, pat, i + 1)
        {
          assert s[i + 1..i + 1 + |pat|] == s[1..][i..i + |pat|];
        }
      }
      ReplaceAbsent(s[1..], pat, rep);
    }
  }

  /** One step of the scan past a character that does not start an
      occurrence. */
  lemma ReplaceStep(s: string, pat: string, rep: string)
    requires |pat| > 0 && |s| > 0 && !StartsWith(s, pat)
    ensures Replace(s, pat, rep) == [s[0]] + Replace(s[1..], pat, rep)
  {
  }

  /** A character other than the pattern's first is copied through. */
  lemma ReplaceCons(c: char, t: string, pat: string, rep: string)
    requires |pat| > 0 && c != pat[0]
    ensures Replace([c] + t, pat, rep) == [c] + Replace(t, pat, rep)
  {
    ConsParts(c, t);
    ReplaceStep([c] + t, pat, rep);
  }

  /** A character followed by one that differs from the pattern's second
      is copied through. */
  lemma ReplaceConsSecond(c: char, u: string, pat: string, rep: string)
    requires 1 < |pat| && |u| > 0 && u[0] != pat[1]
    ensures Replace([c] + u, pat, rep) == [c] + Replace(u, pat, rep)
  {
    ConsParts(c, u);
    ReplaceStep([c] + u, pat, rep);
  }

  /** Text that cannot start the pattern passes through unchanged. */
  lemma {:induction false} ReplacePrefix(a: string, t: string, pat: string, rep: string)
    requires |pat| > 0 && pat[0] !in a
    ensures Replace(a + t, pat, rep) == a + Replace(t, pat, rep)
    decreases |a|
  {
    if |a| == 0 {
      assert a + t == t;
    } else {
      ConsAppend(a, t);
      ReplaceCons(a[0], a[1..] + t, pat, rep);
      ReplacePrefix(a[1..], t, pat, rep);
      ConsAppend(a, Replace(t, pat, rep));
    }
  }

  /** A character, then text that parts from the pattern at once and
      cannot start it anywhere, is copied through unchanged. */
  lemma ReplaceSkip(c: char, a: string, t: string, pat: string, rep: string)
    requires 1 < |pat| && |a| > 0 && a[0] != pat[1] && pat[0] !in a
    ensures Replace([c] + (a + t), pat, rep) == [c] + (a + Replace(t, pat, rep))
  {
    ReplaceConsSecond(c, a + t, pat, rep);
    ReplacePrefix(a, t, pat, rep);
  }

  /** Replacing a non-empty pattern by itself is the identity. */
  lemma {:induction false} ReplaceSelf(s: string, pat: string)
    requires |pat| > 0
    ensures Replace(s, pat, pat) == s
    decreases |s|
  {
    if |s| > 0 {
      if StartsWith(s, pat) {
        StartsWithPrefix(s, pat);
        ReplaceSelf(s[|pat|..], pat);
        assert s == s[..|pat|] + s[|pat|..];
      } else {
        ReplaceSelf(s[1..], pat);
        assert s == [s[0]] + s[1..];
      }
    }
  }

  /** A pattern whose first character is absent from s does not occur. */
  lemma AbsentByFirst(s: string, pat: string)
    requires |pat| > 0 && pat[0] !in s
    ensures !Contains(s, pat)
  {
    forall i: nat | i <= |s|
      ensures !OccursAt(s, pat, i)
    {
      if i + |pat| <= |s| {
        assert s[i..i + |pat|][0] == s[i];
      }
    }
  }

  /** Replacing a pattern whose first character never appears changes
      nothing. */
  lemma ReplaceAbsentFirst(s: string, pat: string, rep: string)
    requires |pat| > 0 && pat[0] !in s
    ensures Replace(s, pat, rep) == s
  {
    AbsentByFirst(s, pat);
    ReplaceAbsent(s, pat, rep);
  }

  /** An occurrence at the front is replaced. */
  lemma ReplaceHead(t: string, pat: string, rep: string)
    requires |pat| > 0
    ensures Replace(pat + t, pat, rep) == rep + Replace(t, pat, rep)
  {
    var s := pat + t;
    assert s[..|pat|] == pat;
    StartsWithPrefix(s, pat);
    assert s[|pat|..] == t;
  }

  /** The one occurrence of a pattern in text whose other characters
      cannot start it becomes the replacement. */
  lemma ReplaceOnce(pre: string, post: string, pat: string, rep: string)
    requires |pat| > 0 && pat[0] !in pre && pat[0] !in post
    ensures Replace(pre + (pat + post), pat, rep) == pre + (rep + post)
  {
    ReplacePrefix(pre, pat + post, pat, rep);
    ReplaceHead(post, pat, rep);
    ReplaceAbsentFirst(post, pat, rep);
  }

  /** Text that neither extends nor is extended by the pattern does not
      start it, whatever follows. */
  lemma NotPrefixNotAt(v: string, rest: string, pat: string)
    requires !PrefixOf(pat, v) && !PrefixOf(v, pat)
    ensures !StartsWith(v + rest, pat)
  {
    var s := v + rest;
    StartsWithPrefix(s, pat);
    if |pat| <= |s| {
      if |pat| <= |v| {
        assert s[..|pat|] == v[..|pat|];
      } else {
        assert s[..|pat|][..|v|] == v;
      }
    }
  }

  /** The head and tail of a string built from its first character. */
  lemma ConsParts(c: char, u: string)
    ensures ([c] + u)[0] == c && ([c] + u)[1..] == u
  {
  }

  /** Splitting off the first character of the left operand. */
  lemma ConsAppend(v: string, t: string)
    requires |v| > 0
    ensures v + t == [v[0]] + (v[1..] + t)
  {
  }

  /** A character that does not start an occurrence, followed by text that
      cannot start one, is copied through unchanged. */
  lemma ReplacePast(c: char, a: string, t: string, pat: string, rep: string)
    requires |pat| > 0 && !StartsWith([c] + (a + t), pat) && pat[0] !in a
    ensures Replace([c] + (a + t), pat, rep) == [c] + (a + Replace(t, pat, rep))
  {
    ConsParts(c, a + t);
    ReplaceStep([c] + (a + t), pat, rep);
    ReplacePrefix(a, t, pat, rep);
  }

  /** The characters Python's `str.isspace` accepts. */
  predicate IsSpace(c: char)
  {
    var n := c as int;
    (9 <= n <= 13) || (28 <= n <= 32) || n == 0x85 || n == 0xA0 || n == 0x1680
    || (0x2000 <= n <= 0x200A) || n == 0x2028 || n == 0x2029 || n == 0x202F
    || n == 0x205F || n == 0x3000
  }

  function StripLeft(s: string): (r: string)
    ensures |r| <= |s| && r == s[|s| - |r|..]
    ensures |r| > 0 ==> !IsSpace(r[0])
    ensures forall i :: 0 <= i < |s| - |r| ==> IsSpace(s[i])
  {
    if |s| > 0 && IsSpace(s[0]) then StripLeft(s[1..]) else s
  }

  function StripRight(s: string): (r: string)
    ensures |r| <= |s| && r == s[..|r|]
    ensures |r| > 0 ==> !IsSpace(r[|r| - 1])
    ensures forall i :: |r| <= i < |s| ==> IsSpace(s[i])
  {
    if |s| > 0 && IsSpace(s[|s| - 1]) then StripRight(s[..|s| - 1]) else s
  }

  /** Python `s.strip()`. */
  function Strip(s: string): string
  {
    StripRight(StripLeft(s))
  }

  /** A string strips to "" exactly when every character is whitespace. */
  lemma StripEmptyIff(s: string)
    ensures Strip(s) == "" <==> forall i :: 0 <= i < |s| ==> IsSpace(s[i])
  {
    var l := StripLeft(s);
    if Strip(s) == "" {
      assert |l| == 0;
    } else {
      var r := Strip(s);
      assert !IsSpace(r[0]);
      assert r[0] == l[0] == s[|s| - |l|];
    }
  }

  function Spaces(n: nat): (s: string)
    ensures |s| == n && forall i :: 0 <= i < n ==> s[i] == ' '
  {
    if n == 0 then "" else Spaces(n - 1) + " "
  }

  /** f"{s:w}" for a string: left-aligned, padded with spaces to width w. */
  function PadRight(s: string, w: nat): (r: string)
    ensures |r| == if |s| >= w then |s| else w
    ensures r[..|s|] == s
    ensures forall i :: |s| <= i < |r| ==> r[i] == ' '
  {
    if |s| >= w then s else s + Spaces(w - |s|)
  }
}
