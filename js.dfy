/** The JavaScript built-ins the server routes lean on, modelled on strings:
    truthiness and `||` on optional request fields, `parseInt`, `String.prototype.trim`,
    and the ASCII case-insensitive substring test that stands in for a `$regex` with
    option `'i'`. */
module Js {

  /** A request field that may be `undefined`. */
  datatype Option<+T> = None | Some(value: T)

  /** JavaScript truthiness of an optional string: `undefined` and `""` are falsy. */
  predicate Truthy(v: Option<string>)
  {
    v.Some? && v.value != ""
  }

  /** `a || b` with a string fallback. */
  function Or(a: Option<string>, b: string): string
  {
    if Truthy(a) then a.value else b
  }

  /** `a || b` with a fallback that may itself be `undefined`. */
  function OrElse(a: Option<string>, b: Option<string>): Option<string>
  {
    if Truthy(a) then a else b
  }

  // ---------------------------------------------------------------------------
  // Number formatting and parseInt
  // ---------------------------------------------------------------------------

  function DecimalDigit(d: nat): (c: char)
    requires d < 10
  {
    ['0', '1', '2', '3', '4', '5', '6', '7', '8', '9'][d]
  }

  /** The decimal rendering of a natural number, as `String(n)` gives it. */
  function NatToDecimal(n: nat): (s: string)
    ensures |s| > 0
    decreases n
  {
    if n < 10 then [DecimalDigit(n)] else NatToDecimal(n / 10) + [DecimalDigit(n % 10)]
  }

  /** The value of `c` as a digit in base `radix` (10 or 16), if it is one. */
  function DigitValue(c: char, radix: nat): (r: Option<nat>)
    ensures r.Some? ==> r.value < radix
  {
    if '0' <= c <= '9' && (c as int) - ('0' as int) < radix then Some((c as int) - ('0' as int))
    else if radix == 16 && 'a' <= c <= 'f' then Some((c as int) - ('a' as int) + 10)
    else if radix == 16 && 'A' <= c <= 'F' then Some((c as int) - ('A' as int) + 10)
    else None
  }

  /** The longest prefix of `s` made of digits in base `radix`. */
  function DigitPrefix(s: string, radix: nat): (r: string)
    ensures |r| <= |s| && r == s[..|r|]
    ensures forall k :: 0 <= k < |r| ==> DigitValue(r[k], radix).Some?
    ensures |r| < |s| ==> DigitValue(s[|r|], radix).None?
  {
    if s == [] || DigitValue(s[0], radix).None? then [] else [s[0]] + DigitPrefix(s[1..], radix)
  }

  /** The number a non-empty run of digits denotes, most significant digit first. */
  function DigitsValue(ds: string, radix: nat): nat
    requires forall k :: 0 <= k < |ds| ==> DigitValue(ds[k], radix).Some?
  {
    if ds == [] then 0
    else DigitsValue(ds[..|ds| - 1], radix) * radix + DigitValue(ds[|ds| - 1], radix).value
  }

  /** The white space `parseInt` and `trim` skip (ECMAScript WhiteSpace and LineTerminator). */
  predicate IsJsSpace(c: char)
  {
    c == '\t' || c == '\n' || c == '\U{000B}' || c == '\U{000C}' || c == '\r' || c == ' '
    || c == '\U{00A0}' || c == '\U{1680}' || ('\U{2000}' <= c <= '\U{200A}')
    || c == '\U{2028}' || c == '\U{2029}' || c == '\U{202F}' || c == '\U{205F}'
    || c == '\U{3000}' || c == '\U{FEFF}'
  }

  /** `s` without its leading white space. */
  function TrimStart(s: string): (r: string)
    ensures |r| <= |s| && r == s[|s| - |r|..]
    ensures forall k :: 0 <= k < |s| - |r| ==> IsJsSpace(s[k])
    ensures r == [] || !IsJsSpace(r[0])
  {
    if s != [] && IsJsSpace(s[0]) then
      var r := TrimStart(s[1..]);
      assert s[1..][|s| - 1 - |r|..] == s[|s| - |r|..];
      assert forall k :: 1 <= k < |s| - |r| ==> s[k] == s[1..][k - 1];
      r
    else s
  }

  /** `s` without its trailing white space. */
  function TrimEnd(s: string): (r: string)
    ensures |r| <= |s| && r == s[..|r|]
    ensures forall k :: |r| <= k < |s| ==> IsJsSpace(s[k])
    ensures r == [] || !IsJsSpace(r[|r| - 1])
  {
    if s != [] && IsJsSpace(s[|s| - 1]) then TrimEnd(s[..|s| - 1]) else s
  }

  /** `s.trim()`: the part of `s` between its leading and trailing white space. What
      it leaves neither starts nor ends with white space. */
  function Trim(s: string): (r: string)
    ensures |r| <= |s|
    ensures r == [] || (!IsJsSpace(r[0]) && !IsJsSpace(r[|r| - 1]))
  {
    var t := TrimStart(s);
    var e := TrimEnd(t);
    assert e != [] ==> e[0] == t[..|e|][0];
    e
  }

  /** `r` is `s[i..j]` and everything of `s` outside it is white space. */
  ghost predicate TrimmedAt(s: string, r: string, i: int, j: int)
  {
    && 0 <= i <= j <= |s| && r == s[i..j]
    && (forall k :: 0 <= k < i ==> IsJsSpace(s[k]))
    && (forall k :: j <= k < |s| ==> IsJsSpace(s[k]))
  }

  /** `Trim` removes only white space, from both ends. */
  lemma TrimShape(s: string)
    ensures exists i, j :: TrimmedAt(s, Trim(s), i, j)
  {
    var t := TrimStart(s);
    var e := TrimEnd(t);
    var i := |s| - |t|;
    var j := i + |e|;
    assert e == s[i..j] by {
      assert t == s[i..];
      assert e == t[..|e|];
    }
    forall k | j <= k < |s| ensures IsJsSpace(s[k]) {
      assert s[k] == t[k - i];
    }
    assert TrimmedAt(s, Trim(s), i, j);
  }


  /** Trimming twice is trimming once, so a trimmed name is stored unchanged. */
  lemma TrimIdempotent(s: string)
    ensures Trim(Trim(s)) == Trim(s)
  {
    var r := Trim(s);
    assert TrimStart(r) == r;
    assert TrimEnd(r) == r;
  }

  /** `parseInt(s)` with no radix: skips leading white space, reads one optional sign,
      then an unsigned number; `None` is `NaN` (no digit at all). A negative result
      comes only from a leading minus sign. */
  function ParseInt(s: string): (r: Option<int>)
    ensures r.Some? && r.value < 0 ==> |TrimStart(s)| > 0 && TrimStart(s)[0] == '-'
  {
    var t := TrimStart(s);
    if |t| > 0 && t[0] == '-' then
      match ParseMagnitude(t[1..])
      case None => None
      case Some(v) => Some(-(v as int))
    else if |t| > 0 && t[0] == '+' then
      match ParseMagnitude(t[1..])
      case None => None
      case Some(v) => Some(v)
    else
      match ParseMagnitude(t)
      case None => None
      case Some(v) => Some(v)
  }

  /** The unsigned part of `parseInt`: base 16 after a `0x`/`0X` prefix, else base 10. */
  function ParseMagnitude(u: string): Option<nat>
  {
    if |u| >= 2 && u[0] == '0' && (u[1] == 'x' || u[1] == 'X') then ParseDigits(u[2..], 16)
    else ParseDigits(u, 10)
  }

  /** The value of the longest run of base-`radix` digits at the start of `v`, if any. */
  function ParseDigits(v: string, radix: nat): Option<nat>
  {
    var ds := DigitPrefix(v, radix);
    if ds == [] then None else Some(DigitsValue(ds, radix))
  }

  lemma {:induction false} DecimalDigitsValue(n: nat)
    ensures forall k :: 0 <= k < |NatToDecimal(n)| ==> DigitValue(NatToDecimal(n)[k], 10).Some?
    ensures DigitsValue(NatToDecimal(n), 10) == n
    decreases n
  {
    if n >= 10 {
      DecimalDigitsValue(n / 10);
      var s := NatToDecimal(n);
      assert s[..|s| - 1] == NatToDecimal(n / 10);
    }
  }

  /** `parseInt` reads back what `String(n)` writes, for every natural number. */
  lemma ParseIntOfDecimal(n: nat)
    ensures ParseInt(NatToDecimal(n)) == Some(n)
  {
    var s := NatToDecimal(n);
    DecimalDigitsValue(n);
    if n >= 10 {
      NonZeroLead(n);
    }
    ParseIntOfDigits(s);
  }

  /** A run of decimal digits without a leading `0x` parses to its value. */
  lemma ParseIntOfDigits(s: string)
    requires |s| > 0 && forall k :: 0 <= k < |s| ==> DigitValue(s[k], 10).Some?
    requires |s| >= 2 ==> s[0] != '0'
    ensures ParseInt(s) == Some(DigitsValue(s, 10))
  {
    assert '0' <= s[0] <= '9' by {
      assert DigitValue(s[0], 10).Some?;
    }
    assert !IsJsSpace(s[0]);
    assert TrimStart(s) == s;
    DigitPrefixOfDigits(s, 10);
    var v := DigitsValue(s, 10);
    assert ParseDigits(s, 10) == Some(v);
    assert !(|s| >= 2 && s[0] == '0');
    assert ParseMagnitude(s) == Some(v);
    assert s[0] != '-' && s[0] != '+';
  }

  lemma {:induction false} DigitPrefixOfDigits(s: string, radix: nat)
    requires forall k :: 0 <= k < |s| ==> DigitValue(s[k], radix).Some?
    ensures DigitPrefix(s, radix) == s
  {
    if s != [] {
      DigitPrefixOfDigits(s[1..], radix);
    }
  }

  lemma {:induction false} NonZeroLead(n: nat)
    requires n >= 1
    ensures NatToDecimal(n)[0] != '0'
    decreases n
  {
    if n >= 10 {
      NonZeroLead(n / 10);
    }
  }

  /** A string with no digit after its white space and sign parses to `NaN`. */
  lemma ParseIntNoDigits(s: string)
    requires var t := TrimStart(s);
      var u := if |t| > 0 && (t[0] == '-' || t[0] == '+') then t[1..] else t;
      u == [] || !('0' <= u[0] <= '9')
    ensures ParseInt(s).None?
  {
    var t := TrimStart(s);
    var u := if |t| > 0 && (t[0] == '-' || t[0] == '+') then t[1..] else t;
    assert DigitPrefix(u, 10) == [] by {
      if u != [] {
        assert DigitValue(u[0], 10).None?;
      }
    }
    assert ParseDigits(u, 10) == None;
    assert ParseMagnitude(u) == None;
  }

  // ---------------------------------------------------------------------------
  // Case-insensitive substring search
  // ---------------------------------------------------------------------------

  function LowerChar(c: char): char
  {
    if 'A' <= c <= 'Z' then ((c as int) + 32) as char else c
  }

  function UpperChar(c: char): char
  {
    if 'a' <= c <= 'z' then ((c as int) - 32) as char else c
  }

  /** ASCII lower-casing, character by character. */
  function Lower(s: string): (r: string)
    ensures |r| == |s| && forall k :: 0 <= k < |s| ==> r[k] == LowerChar(s[k])
  {
    seq(|s|, k requires 0 <= k < |s| => LowerChar(s[k]))
  }

  /** ASCII upper-casing, character by character. */
  function Upper(s: string): (r: string)
    ensures |r| == |s| && forall k :: 0 <= k < |s| ==> r[k] == UpperChar(s[k])
  {
    seq(|s|, k requires 0 <= k < |s| => UpperChar(s[k]))
  }

  /** Lower-casing a slice is slicing the lower-cased string. */
  lemma LowerSlice(s: string, i: int, j: int)
    requires 0 <= i <= j <= |s|
    ensures Lower(s)[i..j] == Lower(s[i..j])
  {
  }

  /** Folding to either case and then to lower case is folding to lower case. */
  lemma LowerAbsorbsCase(s: string)
    ensures Lower(Lower(s)) == Lower(s) && Lower(Upper(s)) == Lower(s)
  {
    forall k | 0 <= k < |s| ensures LowerChar(UpperChar(s[k])) == LowerChar(s[k]) {
      var c := s[k];
      if 'a' <= c <= 'z' {
        assert 'A' <= UpperChar(c) <= 'Z';
        assert (UpperChar(c) as int) + 32 == c as int;
      }
    }
  }

  /** `needle` occurs in `hay` starting at index `i`. */
  predicate OccursAt(hay: string, needle: string, i: int)
  {
    0 <= i && i + |needle| <= |hay| && hay[i..i + |needle|] == needle
  }

  /** Whether `needle` occurs in `hay` as a contiguous substring. */
  function Contains(hay: string, needle: string): (r: bool)
    ensures r <==> exists i :: OccursAt(hay, needle, i)
    decreases |hay|
  {
    if |needle| > |hay| then false
    else if hay[..|needle|] == needle then assert OccursAt(hay, needle, 0); true
    else
      var rest := Contains(hay[1..], needle);
      assert forall i :: OccursAt(hay, needle, i) <==> i != 0 && OccursAt(hay[1..], needle, i - 1) by {
        forall i ensures OccursAt(hay, needle, i) <==> i != 0 && OccursAt(hay[1..], needle, i - 1) {
          if 1 <= i && i + |needle| <= |hay| {
            var a, b := hay[1..][i - 1..i - 1 + |needle|], hay[i..i + |needle|];
            forall k | 0 <= k < |a| ensures a[k] == b[k] {
              assert hay[1..][i - 1 + k] == hay[i + k];
            }
            assert a == b;
          }
        }
      }
      assert rest ==> OccursAt(hay, needle, 1 + var i :| OccursAt(hay[1..], needle, i); i);
      rest
  }

  /** The slice of `hay` at `i` as long as `needle` equals `needle` up to ASCII case. */
  predicate MatchesAt(hay: string, needle: string, i: int)
  {
    0 <= i && i + |needle| <= |hay| && Lower(hay[i..i + |needle|]) == Lower(needle)
  }

  /** `needle` occurs in `hay` ignoring ASCII case: the `{ $regex: needle, $options: 'i' }`
      filter for a needle without regular-expression metacharacters. It holds exactly
      when some slice of `hay` equals `needle` up to case. */
  predicate ContainsIgnoringCase(hay: string, needle: string): (b: bool)
    ensures b <==> exists i :: MatchesAt(hay, needle, i)
  {
    forall i ensures OccursAt(Lower(hay), Lower(needle), i) <==> MatchesAt(hay, needle, i) {
      if 0 <= i && i + |needle| <= |hay| {
        LowerSlice(hay, i, i + |needle|);
      }
    }
    Contains(Lower(hay), Lower(needle))
  }

  /** The case of the search term and of the searched text do not matter: upper- or
      lower-casing either leaves the match unchanged. */
  lemma MatchIgnoresCaseOfEither(hay: string, needle: string)
    ensures ContainsIgnoringCase(hay, Upper(needle)) == ContainsIgnoringCase(hay, needle)
    ensures ContainsIgnoringCase(hay, Lower(needle)) == ContainsIgnoringCase(hay, needle)
    ensures ContainsIgnoringCase(Upper(hay), needle) == ContainsIgnoringCase(hay, needle)
    ensures ContainsIgnoringCase(Lower(hay), needle) == ContainsIgnoringCase(hay, needle)
  {
    LowerAbsorbsCase(hay);
    LowerAbsorbsCase(needle);
  }

  /** A needle found verbatim is found ignoring case too. */
  lemma VerbatimMatchIgnoresCase(hay: string, needle: string, i: nat)
    requires i + |needle| <= |hay| && hay[i..i + |needle|] == needle
    ensures ContainsIgnoringCase(hay, needle)
  {
    assert MatchesAt(hay, needle, i);
  }
}
