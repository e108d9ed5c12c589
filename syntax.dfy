/** Text-level helpers shared by both ESIL decoders: splitting an ESIL string
    into tokens, character classes, Rust's integer literal parsers, the
    `{:x}` formatting of temporary names, and the two token patterns that the
    decoders match with regular expressions (compound `op=` tokens and memory
    `[op][=][n]` tokens), written out as string predicates. */
module TokenSyntax {

  datatype Option<T> = None | Some(value: T)

  // ---------------------------------------------------------------------
  // Splitting on ','

  /** Rust's `str::split(',')`: every comma separates two pieces, so the
      result is never empty and "" splits into [""]. */
  function Split(s: string): (r: seq<string>)
    ensures |r| >= 1
    ensures forall i :: 0 <= i < |r| ==> ',' !in r[i]
  {
    if |s| == 0 then [""]
    else
      var rest := Split(s[1..]);
      if s[0] == ',' then [""] + rest else [[s[0]] + rest[0]] + rest[1..]
  }

  /** The inverse of Split: the pieces glued back together with commas. */
  function Join(parts: seq<string>): string
    requires |parts| >= 1
  {
    if |parts| == 1 then parts[0] else parts[0] + "," + Join(parts[1..])
  }

  lemma {:induction false} JoinSplit(s: string)
    ensures Join(Split(s)) == s
  {
    if |s| > 0 {
      JoinSplit(s[1..]);
      var rest := Split(s[1..]);
      if s[0] == ',' {
        assert Split(s) == [""] + rest;
        assert s == [s[0]] + s[1..];
      } else {
        var r := Split(s);
        assert r == [[s[0]] + rest[0]] + rest[1..];
        if |rest| == 1 {
          assert s == [s[0]] + s[1..];
        } else {
          assert r[1..] == rest[1..];
          assert Join(r) == [s[0]] + rest[0] + "," + Join(rest[1..]);
          assert s == [s[0]] + s[1..];
        }
      }
    }
  }

  lemma {:induction false} SplitJoin(parts: seq<string>)
    requires |parts| >= 1
    requires forall i :: 0 <= i < |parts| ==> ',' !in parts[i]
    ensures Split(Join(parts)) == parts
  {
    if |parts| == 1 {
      SplitNoComma(parts[0]);
    } else {
      SplitJoin(parts[1..]);
      SplitPrefix(parts[0], Join(parts[1..]));
    }
  }

  lemma {:induction false} SplitNoComma(s: string)
    requires ',' !in s
    ensures Split(s) == [s]
  {
    if |s| > 0 {
      SplitNoComma(s[1..]);
      assert s == [s[0]] + s[1..];
    }
  }

  /** A comma-free word followed by a comma splits off as the first piece. */
  lemma {:induction false} SplitPrefix(w: string, t: string)
    requires ',' !in w
    ensures Split(w + "," + t) == [w] + Split(t)
  {
    if |w| == 0 {
      assert w + "," + t == [','] + t;
      assert (w + "," + t)[1..] == t;
    } else {
      SplitPrefix(w[1..], t);
      assert (w + "," + t)[1..] == w[1..] + "," + t;
      assert w == [w[0]] + w[1..];
    }
  }

  // ---------------------------------------------------------------------
  // Character classes

  /** The regular expression `[a-zA-Z]`. */
  predicate IsAlpha(c: char) {
    ('a' <= c <= 'z') || ('A' <= c <= 'Z')
  }

  /** Whether a token contains at least one ASCII letter (`Regex::is_match("[a-zA-Z]")`). */
  predicate HasAlpha(s: string) {
    exists i :: 0 <= i < |s| && IsAlpha(s[i])
  }

  /** The regular expression `.`: any character but a line feed. */
  predicate IsDot(c: char) {
    c != '\n'
  }

  // ---------------------------------------------------------------------
  // Integer literals (Rust's `from_str_radix` for `i64`)

  const I64Min: int := -0x8000_0000_0000_0000
  const I64Max: int := 0x7FFF_FFFF_FFFF_FFFF
  const U64Modulus: int := 0x1_0000_0000_0000_0000

  /** `char::to_digit(radix)`: decimal digits, then letters as 10, 11, ... */
  function DigitValue(c: char, radix: nat): (r: Option<nat>)
    requires 2 <= radix <= 36
    ensures r.Some? ==> r.value < radix
  {
    var d :=
      if '0' <= c <= '9' then (c as int) - ('0' as int)
      else if 'a' <= c <= 'z' then (c as int) - ('a' as int) + 10
      else if 'A' <= c <= 'Z' then (c as int) - ('A' as int) + 10
      else 36;
    if d < radix then Some(d) else None
  }

  /** The value of a digit string read most significant digit first, or
      None when some character is not a digit of the radix. */
  function DigitsValue(s: string, radix: nat): Option<nat>
    requires 2 <= radix <= 36
  {
    if |s| == 0 then Some(0)
    else
      match (DigitsValue(s[..|s| - 1], radix), DigitValue(s[|s| - 1], radix))
      case (Some(h), Some(d)) => Some(h * radix + d)
      case _ => None
  }

  /** `i64::from_str_radix`: an optional '+' (or '-') sign, at least one
      digit, and a value within the 64-bit signed range.  Checking the
      range once at the end is equivalent to Rust's checked accumulation,
      since every prefix of the digits has a value no larger than the whole. */
  function FromStrRadix(s: string, radix: nat): (r: Option<int>)
    requires 2 <= radix <= 36
    ensures r.Some? ==> I64Min <= r.value <= I64Max
    ensures r.Some? ==> |s| > 0
  {
    var negative := |s| > 0 && s[0] == '-';
    var digits := if |s| > 0 && (s[0] == '+' || s[0] == '-') then s[1..] else s;
    if |digits| == 0 then None
    else
      match DigitsValue(digits, radix)
      case None => None
      case Some(v) =>
        var x: int := if negative then 0 - v else v;
        if I64Min <= x <= I64Max then Some(x) else None
  }

  /** `str::trim_left_matches("0x")`: strips every leading "0x". */
  function TrimHexPrefix(s: string): (r: string)
    ensures |r| <= |s| && r == s[|s| - |r|..]
    ensures !(|r| >= 2 && r[0] == '0' && r[1] == 'x')
  {
    if |s| >= 2 && s[0] == '0' && s[1] == 'x' then TrimHexPrefix(s[2..]) else s
  }

  /** The `hex_to_i!` macro of the decoder: hexadecimal after trimming "0x". */
  function HexToI(s: string): Option<int> {
    FromStrRadix(TrimHexPrefix(s), 16)
  }

  /** `v as u64` for an `i64` value: two's complement reinterpretation. */
  function AsU64(v: int): (r: nat)
    requires I64Min <= v <= I64Max
    ensures r < U64Modulus
    ensures (r - v) % U64Modulus == 0
  {
    if v < 0 then v + U64Modulus else v
  }

  /** A decimal literal never contains a letter, so a token with a letter
      in it never parses as one. */
  lemma {:induction false} AlphaDigitsFail(s: string)
    requires HasAlpha(s)
    ensures DigitsValue(s, 10).None?
  {
    var i :| 0 <= i < |s| && IsAlpha(s[i]);
    if i < |s| - 1 {
      assert s[..|s| - 1][i] == s[i];
      AlphaDigitsFail(s[..|s| - 1]);
    } else {
      assert DigitValue(s[|s| - 1], 10).None?;
    }
  }

  lemma AlphaTokenIsNotDecimal(s: string)
    requires HasAlpha(s)
    ensures FromStrRadix(s, 10).None?
  {
    var digits := if |s| > 0 && (s[0] == '+' || s[0] == '-') then s[1..] else s;
    var i :| 0 <= i < |s| && IsAlpha(s[i]);
    if digits != s {
      assert digits[i - 1] == s[i];
    }
    AlphaDigitsFail(digits);
  }

  // ---------------------------------------------------------------------
  // Number formatting (`format!("{:x}", n)` for temporary names,
  // `to_string` for constants)

  function HexDigit(d: nat): (c: char)
    requires d < 16
  {
    if d < 10 then ('0' as int + d) as char else ('a' as int + d - 10) as char
  }

  /** Lower-case digits in the radix without leading zeros; 0 is "0". */
  function FormatRadix(n: nat, radix: nat): (r: string)
    requires 2 <= radix <= 16
    ensures |r| >= 1
  {
    if n < radix then [HexDigit(n)] else FormatRadix(n / radix, radix) + [HexDigit(n % radix)]
  }

  function HexString(n: nat): string {
    FormatRadix(n, 16)
  }

  function DecString(n: nat): string {
    FormatRadix(n, 10)
  }

  lemma DivStep(n: nat, radix: nat)
    requires 2 <= radix <= n
    ensures n / radix < n && (n / radix) * radix + n % radix == n
  {
  }

  lemma DigitOfHexDigit(d: nat, radix: nat)
    requires 2 <= radix <= 16 && d < radix
    ensures DigitValue(HexDigit(d), radix) == Some(d)
  {
  }

  /** Reading a formatted number back gives the number: the formatting is
      injective, so distinct temporary indices give distinct names. */
  lemma {:induction false} FormatRoundTrip(n: nat, radix: nat)
    requires 2 <= radix <= 16
    ensures DigitsValue(FormatRadix(n, radix), radix) == Some(n)
  {
    var s := FormatRadix(n, radix);
    if n < radix {
      assert s[..0] == "";
      DigitOfHexDigit(n, radix);
    } else {
      var q, d := n / radix, n % radix;
      DivStep(n, radix);
      FormatRoundTrip(q, radix);
      DigitOfHexDigit(d, radix);
      assert s[..|s| - 1] == FormatRadix(q, radix) && s[|s| - 1] == HexDigit(d);
    }
  }

  lemma HexStringInjective(m: nat, n: nat)
    requires HexString(m) == HexString(n)
    ensures m == n
  {
    FormatRoundTrip(m, 16);
    FormatRoundTrip(n, 16);
  }

  // ---------------------------------------------------------------------
  // Token patterns

  /** The regular expression `^(.|..)=$` of compound tokens such as "+=":
      the operator it captures, or None when the token does not match
      (where the source unwraps the failed match and panics). */
  function MatchCompound(tok: string): (r: Option<string>)
    ensures r.Some? <==> |tok| in {2, 3} && tok[|tok| - 1] == '=' && forall i :: 0 <= i < |tok| - 1 ==> IsDot(tok[i])
    ensures r.Some? ==> tok == r.value + "=" && 1 <= |r.value| <= 2
  {
    if |tok| == 2 && tok[1] == '=' && IsDot(tok[0]) then Some(tok[..1])
    else if |tok| == 3 && tok[2] == '=' && IsDot(tok[0]) && IsDot(tok[1]) then Some(tok[..2])
    else None
  }

  /** The three captures of a memory-access token: the prefix operator, the
      assignment mark and the access width in bytes (possibly empty). */
  datatype MemAccess = MemAccess(prefix: string, assign: bool, width: string)

  /** Every character of `s` matches `.`. */
  predicate AllDots(s: string) {
    forall i :: 0 <= i < |s| ==> IsDot(s[i])
  }

  predicate IsWidthDigit(c: char) {
    c == '1' || c == '2' || c == '4' || c == '8'
  }

  /** What the group `([1248]?)` can capture. */
  predicate IsWidth(w: string) {
    w == "" || (|w| == 1 && IsWidthDigit(w[0]))
  }

  /** The access width in bits of a memory token: its byte count times 8,
      or the default width when it names none. */
  function AccessBits(width: string, defaultSize: nat): (r: nat)
    requires IsWidth(width)
    ensures width == "" ==> r == defaultSize
    ensures width != "" ==> DigitValue(width[0], 10).Some? && r == 8 * DigitValue(width[0], 10).value
  {
    if width == "" then defaultSize
    else if width == "1" then 8
    else if width == "2" then 16
    else if width == "4" then 32
    else 64
  }

  /** The tail `\[([1248]?)\]$`: the width digit it captures. */
  function MatchTail(rest: string): (r: Option<string>)
    ensures r.Some? <==> exists w :: IsWidth(w) && rest == "[" + w + "]"
    ensures r.Some? ==> IsWidth(r.value) && rest == "[" + r.value + "]"
  {
    if |rest| == 3 && rest[0] == '[' && IsWidthDigit(rest[1]) && rest[2] == ']' then
      assert rest == "[" + rest[1..2] + "]";
      Some(rest[1..2])
    else if |rest| == 2 && rest[0] == '[' && rest[1] == ']' then
      assert rest == "[" + "" + "]";
      Some("")
    else None
  }

  /** One way of matching `^(.|..)?(=)?` with an operator of `o` characters
      and an assignment mark of `e` characters, followed by the tail. */
  function TryMem(tok: string, o: nat, e: nat): (r: Option<MemAccess>)
    requires o <= 2 && e <= 1
    ensures r.Some? ==> o + e <= |tok| && r.value.prefix == tok[..o] && r.value.assign == (e == 1)
    ensures r.Some? ==> AllDots(tok[..o])
    ensures r.Some? && e == 1 ==> tok[o] == '='
    ensures r.Some? ==> MatchTail(tok[o + e..]) == Some(r.value.width)
  {
    if o + e <= |tok| && AllDots(tok[..o]) && (e == 1 ==> tok[o] == '=') then
      match MatchTail(tok[o + e..])
      case Some(w) => Some(MemAccess(tok[..o], e == 1, w))
      case None => None
    else None
  }

  /** The regular expression `^(.|..)?(=)?\[([1248]?)\]$` AS WRITTEN, with the
      regex crate's leftmost-first rule: the optional operator group is
      tried first, its one-character branch before its two-character one,
      and the optional '=' is tried before it is skipped.  None is a token
      that does not match (the source panics on the failed unwrap). */
  function MatchMemAsWritten(tok: string): Option<MemAccess> {
    var a := TryMem(tok, 1, 1);
    if a.Some? then a else
    var b := TryMem(tok, 1, 0);
    if b.Some? then b else
    var c := TryMem(tok, 2, 1);
    if c.Some? then c else
    var d := TryMem(tok, 2, 0);
    if d.Some? then d else
    var f := TryMem(tok, 0, 1);
    if f.Some? then f else TryMem(tok, 0, 0)
  }

  /** As written, no token is ever decoded as a plain poke (an assignment
      without a prefix operator): the '=' of "=[4]" is taken by the
      operator group, which is tried first. */
  lemma PlainPokeUnreachableAsWritten(tok: string)
    requires MatchMemAsWritten(tok).Some?
    ensures !(MatchMemAsWritten(tok).value.assign && MatchMemAsWritten(tok).value.prefix == "")
  {
    var f := TryMem(tok, 0, 1);
    if f.Some? {
      assert tok[1..] == tok[0 + 1..];
      assert AllDots(tok[..1]) by { assert tok[..1][0] == tok[0]; }
      assert TryMem(tok, 1, 0) == Some(MemAccess(tok[..1], false, f.value.width));
    }
  }

  /** The concrete input: "=[4]" (store to a 4-byte location) is read as a
      peek whose prefix operator is "=". */
  lemma PokeReadAsPeekAsWritten()
    ensures MatchMemAsWritten("=[4]") == Some(MemAccess("=", false, "4"))
  {
    assert "=[4]"[1..] == "[4]";
    assert "=[4]"[..1] == "=";
    assert "[4]"[1..2] == "4";
    assert MatchTail("[4]") == Some("4");
  }

  /** Where the tail `[n]` of a memory token starts, or -1 when it has none. */
  function TailStart(tok: string): (p: int)
    ensures p >= 0 ==> p <= |tok| && MatchTail(tok[p..]).Some?
  {
    if |tok| >= 3 && MatchTail(tok[|tok| - 3..]).Some? then |tok| - 3
    else if |tok| >= 2 && MatchTail(tok[|tok| - 2..]).Some? then |tok| - 2
    else -1
  }

  /** `tok` spells the memory access `m`: a prefix operator of at most two
      characters, an optional '=' and the width tail. */
  predicate MemShape(tok: string, m: MemAccess) {
    |m.prefix| <= 2 && AllDots(m.prefix) && IsWidth(m.width)
    && tok == m.prefix + (if m.assign then "=" else "") + ("[" + m.width + "]")
  }

  /** The memory-token pattern as evidently intended: the tail `[n]` ends
      the token, an '=' just before it is the assignment mark, and what
      precedes the mark (zero to two characters) is the prefix operator. */
  function MatchMem(tok: string): Option<MemAccess> {
    var p := TailStart(tok);
    if p < 0 then None else MemAt(tok, p)
  }

  /** The intended reading once the tail is known to start at `p`. */
  function MemAt(tok: string, p: nat): Option<MemAccess>
    requires p <= |tok| && MatchTail(tok[p..]).Some?
  {
    var e := if p >= 1 && tok[p - 1] == '=' then 1 else 0;
    var o := p - e;
    if o <= 2 && AllDots(tok[..o]) then Some(MemAccess(tok[..o], e == 1, MatchTail(tok[p..]).value))
    else None
  }

  /** Whatever the intended pattern accepts spells the access it reports. */
  lemma MatchMemSound(tok: string)
    ensures MatchMem(tok).Some? ==> MemShape(tok, MatchMem(tok).value)
  {
    var p := TailStart(tok);
    if p >= 0 {
      MemAtSound(tok, p);
    }
  }

  lemma MemAtSound(tok: string, p: nat)
    requires p <= |tok| && MatchTail(tok[p..]).Some?
    ensures MemAt(tok, p).Some? ==> MemShape(tok, MemAt(tok, p).value)
  {
    var e := if p >= 1 && tok[p - 1] == '=' then 1 else 0;
    var o := p - e;
    if o <= 2 && AllDots(tok[..o]) {
      var w := MatchTail(tok[p..]).value;
      var x: string := if e == 1 then "=" else "";
      assert tok[p..] == "[" + w + "]";
      assert tok[o..p] == x by {
        if e == 1 { assert tok[o..p] == [tok[o]]; }
      }
      calc {
        tok;
        tok[..o] + tok[o..p] + tok[p..];
        tok[..o] + x + ("[" + w + "]");
      }
    }
  }

  /** The tail of a token built from a prefix and `[w]` starts after the prefix. */
  lemma TailStartOf(pre: string, w: string)
    requires IsWidth(w)
    ensures TailStart(pre + "[" + w + "]") == |pre|
    ensures MatchTail((pre + "[" + w + "]")[|pre|..]) == Some(w)
  {
    var tok := pre + "[" + w + "]";
    var rest := tok[|pre|..];
    assert rest == "[" + w + "]";
    if w == "" {
      assert |tok| == |pre| + 2;
      assert rest == "[]";
      assert tok[|tok| - 2..] == rest;
      if |tok| >= 3 {
        assert tok[|tok| - 3..][1] == tok[|pre|] == '[';
      }
    } else {
      assert |tok| == |pre| + 3;
      assert tok[|tok| - 3..] == rest;
      assert rest[1..2] == w;
    }
  }

  /** The intended reading of "=[n]" is a plain poke, and every token of
      the form prefix '=' tail is an assignment through that prefix. */
  lemma MatchMemAssign(prefix: string, w: string)
    requires |prefix| <= 2 && AllDots(prefix) && IsWidth(w)
    ensures MatchMem(prefix + "=[" + w + "]") == Some(MemAccess(prefix, true, w))
  {
    var tok := prefix + "=[" + w + "]";
    assert tok == (prefix + "=") + "[" + w + "]";
    TailStartOf(prefix + "=", w);
    assert tok[|prefix|] == '=';
    assert tok[..|prefix|] == prefix;
  }

  /** The intended reading of peek tokens "[n]" and "op[n]" (op not ending in '='). */
  lemma MatchMemPeek(prefix: string, w: string)
    requires |prefix| <= 2 && AllDots(prefix) && IsWidth(w)
    requires |prefix| > 0 ==> prefix[|prefix| - 1] != '='
    ensures MatchMem(prefix + "[" + w + "]") == Some(MemAccess(prefix, false, w))
  {
    var tok := prefix + "[" + w + "]";
    TailStartOf(prefix, w);
    assert tok[..|prefix|] == prefix;
    if |prefix| >= 1 {
      assert tok[|prefix| - 1] == prefix[|prefix| - 1];
    }
  }

  /** A compound-poke reading with an `o`-character prefix is also the
      intended reading. */
  lemma MatchMemAgreesAt(tok: string, o: nat)
    requires o <= 2 && TryMem(tok, o, 1).Some?
    ensures MatchMem(tok) == TryMem(tok, o, 1)
  {
    var m := TryMem(tok, o, 1).value;
    var rest := tok[o + 1..];
    assert rest == "[" + m.width + "]";
    assert tok == tok[..o] + [tok[o]] + rest;
    assert tok == m.prefix + "=[" + m.width + "]";
    MatchMemAssign(m.prefix, m.width);
  }

  /** Where the regex crate's reading has an assignment mark, the intended
      reading agrees with it; the two differ only on the plain poke. */
  lemma MatchMemAgreesOnCompoundPoke(tok: string)
    requires MatchMemAsWritten(tok).Some? && MatchMemAsWritten(tok).value.assign
    ensures MatchMem(tok) == MatchMemAsWritten(tok)
  {
    if TryMem(tok, 1, 1).Some? {
      MatchMemAgreesAt(tok, 1);
    } else if TryMem(tok, 1, 0).Some? {
      assert false;
    } else if TryMem(tok, 2, 1).Some? {
      MatchMemAgreesAt(tok, 2);
    } else if TryMem(tok, 2, 0).Some? {
      assert false;
    } else {
      assert MatchMemAsWritten(tok) == TryMem(tok, 0, 1);
      MatchMemAgreesAt(tok, 0);
    }
  }
}
