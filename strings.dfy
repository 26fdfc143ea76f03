/**
 * The string primitives the JavaScript code relies on: `String.prototype.trim`, the regular
 * expression class `\s`, `toLowerCase`, `toUpperCase`, `split`, `slice(0, n)` and `padStart`.
 * Strings are sequences of Unicode scalar values.
 */
module Strings {

  /** The code points of ECMAScript's WhiteSpace and LineTerminator productions: exactly the
      characters `trim` removes and `\s` matches. */
  predicate IsSpace(c: char) {
    || ('\t' <= c <= '\r') || c == ' ' || c == '\U{A0}' || c == '\U{1680}' || ('\U{2000}' <= c <= '\U{200A}')
    || ('\U{2028}' <= c <= '\U{2029}') || c == '\U{202F}' || c == '\U{205F}' || c == '\U{3000}' || c == '\U{FEFF}'
  }

  /** `/\s/.test(s)`: some character of `s` is whitespace. */
  predicate HasSpace(s: string) {
    exists i :: 0 <= i < |s| && IsSpace(s[i])
  }

  /** Every character of `s` is whitespace (vacuously true of ""). */
  predicate AllSpace(s: string) {
    forall i :: 0 <= i < |s| ==> IsSpace(s[i])
  }

  /** `s` neither starts nor ends with whitespace. */
  predicate IsTrimmed(s: string) {
    s == [] || (!IsSpace(s[0]) && !IsSpace(s[|s| - 1]))
  }

  /** Every character of `s` in positions lo..hi-1 is whitespace. */
  predicate SpacesIn(s: string, lo: nat, hi: nat)
    requires lo <= hi <= |s|
  {
    forall i :: lo <= i < hi ==> IsSpace(s[i])
  }

  /** The number of leading whitespace characters. */
  function TrimLo(s: string): (a: nat)
    ensures a <= |s| && SpacesIn(s, 0, a)
    ensures a < |s| ==> !IsSpace(s[a])
  {
    if s != [] && IsSpace(s[0]) then 1 + TrimLo(s[1..]) else 0
  }

  /** The length of `s` without its trailing whitespace. */
  function TrimHi(s: string): (b: nat)
    ensures b <= |s| && SpacesIn(s, b, |s|)
    ensures b > 0 ==> !IsSpace(s[b - 1])
  {
    if s != [] && IsSpace(s[|s| - 1]) then TrimHi(s[..|s| - 1]) else |s|
  }

  /** `String.prototype.trim`: the text between the leading and the trailing whitespace. */
  function Trim(s: string): (r: string)
    ensures TrimLo(s) <= TrimHi(s) ==> r == s[TrimLo(s)..TrimHi(s)]
    ensures TrimLo(s) >= TrimHi(s) ==> r == [] && AllSpace(s)
    ensures IsTrimmed(r)
  {
    var a, b := TrimLo(s), TrimHi(s);
    if a < b then s[a..b]
    else
      assert a < |s| ==> a < b;
      assert AllSpace(s) by {
        forall i | 0 <= i < |s| ensures IsSpace(s[i]) {
          assert i < a || b <= i;
        }
      }
      []
  }

  /** A string trims to "" exactly when it is all whitespace: the source's blank test. */
  lemma TrimEmptyIffAllSpace(s: string)
    ensures Trim(s) == [] <==> AllSpace(s)
  {
    var a, b := TrimLo(s), TrimHi(s);
    if a < b {
      assert Trim(s)[0] == s[a];
    }
  }

  /** The trimmed text is determined by the string: any slice of `s` that is itself trimmed and
      has only whitespace around it is `Trim(s)`. */
  lemma TrimUnique(s: string, a: nat, b: nat)
    requires a <= b <= |s|
    requires IsTrimmed(s[a..b]) && SpacesIn(s, 0, a) && SpacesIn(s, b, |s|)
    ensures Trim(s) == s[a..b]
  {
    var lo, hi := TrimLo(s), TrimHi(s);
    if a < b {
      assert s[a..b][0] == s[a] && s[a..b][b - a - 1] == s[b - 1];
      assert lo == a;
      assert hi == b;
    } else {
      assert AllSpace(s) by {
        forall i | 0 <= i < |s| ensures IsSpace(s[i]) {
          assert i < a || b <= i;
        }
      }
      TrimEmptyIffAllSpace(s);
    }
  }

  lemma TrimOfTrimmed(s: string)
    requires IsTrimmed(s)
    ensures Trim(s) == s
  {
    TrimUnique(s, 0, |s|);
  }

  /** Trimming twice is trimming once. */
  lemma TrimIdempotent(s: string)
    ensures Trim(Trim(s)) == Trim(s)
  {
    TrimOfTrimmed(Trim(s));
  }

  /** Leading whitespace does not change what a string trims to. */
  lemma TrimPadLeft(pre: string, w: string)
    requires AllSpace(pre)
    ensures Trim(pre + w) == Trim(w)
  {
    var s, p := pre + w, |pre|;
    var a, b := TrimLo(w), TrimHi(w);
    if a < b {
      assert s[p + a..p + b] == w[a..b];
      forall i | 0 <= i < p + a ensures IsSpace(s[i]) {
        if i < p { assert s[i] == pre[i]; } else { assert s[i] == w[i - p]; }
      }
      forall i | p + b <= i < |s| ensures IsSpace(s[i]) {
        assert s[i] == w[i - p];
      }
      TrimUnique(s, p + a, p + b);
    } else {
      forall i | 0 <= i < |s| ensures IsSpace(s[i]) {
        if i < p { assert s[i] == pre[i]; } else { assert s[i] == w[i - p]; }
      }
      TrimEmptyIffAllSpace(s);
    }
  }

  /** Trailing whitespace does not change what a string trims to. */
  lemma TrimPadRight(w: string, post: string)
    requires AllSpace(post)
    ensures Trim(w + post) == Trim(w)
  {
    var s, n := w + post, |w|;
    var a, b := TrimLo(w), TrimHi(w);
    if a < b {
      assert s[a..b] == w[a..b];
      forall i | 0 <= i < a ensures IsSpace(s[i]) {
        assert s[i] == w[i];
      }
      forall i | b <= i < |s| ensures IsSpace(s[i]) {
        if i < n { assert s[i] == w[i]; } else { assert s[i] == post[i - n]; }
      }
      TrimUnique(s, a, b);
    } else {
      forall i | 0 <= i < |s| ensures IsSpace(s[i]) {
        if i < n { assert s[i] == w[i]; } else { assert s[i] == post[i - n]; }
      }
      TrimEmptyIffAllSpace(s);
    }
  }

  /** Whitespace around a string does not change what it trims to. */
  lemma TrimPadded(pre: string, w: string, post: string)
    requires AllSpace(pre) && AllSpace(post)
    ensures Trim(pre + w + post) == Trim(w)
  {
    TrimPadRight(pre + w, post);
    TrimPadLeft(pre, w);
  }

  /** ASCII lower-casing of one character; every other character is left alone. */
  function LowerChar(c: char): char {
    if 'A' <= c <= 'Z' then (c as int + 32) as char else c
  }

  /** ASCII upper-casing of one character; every other character is left alone. */
  function UpperChar(c: char): char {
    if 'a' <= c <= 'z' then (c as int - 32) as char else c
  }

  /** `toLowerCase`, restricted to ASCII letters. */
  function ToLower(s: string): (r: string)
    ensures |r| == |s|
    ensures forall i :: 0 <= i < |s| ==> r[i] == LowerChar(s[i])
  {
    seq(|s|, i requires 0 <= i < |s| => LowerChar(s[i]))
  }

  /** `toUpperCase`, restricted to ASCII letters. */
  function ToUpper(s: string): (r: string)
    ensures |r| == |s|
    ensures forall i :: 0 <= i < |s| ==> r[i] == UpperChar(s[i])
  {
    seq(|s|, i requires 0 <= i < |s| => UpperChar(s[i]))
  }

  lemma ToLowerIdempotent(s: string)
    ensures ToLower(ToLower(s)) == ToLower(s)
  {
  }

  lemma ToUpperIdempotent(s: string)
    ensures ToUpper(ToUpper(s)) == ToUpper(s)
  {
  }

  /** Case mapping neither creates nor removes whitespace, so it keeps a trimmed string trimmed. */
  lemma ToLowerKeepsTrimmed(s: string)
    requires IsTrimmed(s)
    ensures IsTrimmed(ToLower(s))
  {
  }

  /** Lower-casing keeps whitespace where it is. */
  lemma ToLowerSpacesIn(s: string, lo: nat, hi: nat)
    requires lo <= hi <= |s| && SpacesIn(s, lo, hi)
    ensures SpacesIn(ToLower(s), lo, hi)
  {
  }

  /** Lower-casing a slice is slicing the lower-cased string. */
  lemma ToLowerSlice(s: string, a: nat, b: nat)
    requires a <= b <= |s|
    ensures ToLower(s)[a..b] == ToLower(s[a..b])
  {
    assert forall i :: 0 <= i < b - a ==> ToLower(s)[a..b][i] == ToLower(s[a..b])[i];
  }

  /** Lower-casing commutes with trimming. */
  lemma TrimToLower(s: string)
    ensures Trim(ToLower(s)) == ToLower(Trim(s))
  {
    var l := ToLower(s);
    var a, b := TrimLo(s), TrimHi(s);
    if a < b {
      ToLowerSpacesIn(s, 0, a);
      ToLowerSpacesIn(s, b, |s|);
      ToLowerSlice(s, a, b);
      ToLowerKeepsTrimmed(s[a..b]);
      TrimUnique(l, a, b);
    } else {
      ToLowerSpacesIn(s, 0, |s|);
      TrimEmptyIffAllSpace(l);
    }
  }

  /** Lower-casing after upper-casing is plain lower-casing. */
  lemma ToLowerToUpper(s: string)
    ensures ToLower(ToUpper(s)) == ToLower(s)
  {
  }

  /** `/\s/` matches a string exactly when it matches its lower-cased form. */
  lemma ToLowerKeepsSpaces(s: string)
    ensures HasSpace(ToLower(s)) <==> HasSpace(s)
  {
    if HasSpace(s) {
      var i :| 0 <= i < |s| && IsSpace(s[i]);
      assert IsSpace(ToLower(s)[i]);
    }
  }

  /** `s.slice(0, n)`: the first `n` characters, or all of `s` when it is shorter. */
  function Prefix(s: string, n: nat): (r: string)
    ensures |r| == if |s| < n then |s| else n
    ensures r <= s
  {
    if |s| <= n then s else s[..n]
  }

  /** The position of the first `sep` in `s`, or |s| when there is none. */
  function IndexOf(s: string, sep: char): (i: nat)
    ensures i <= |s|
    ensures i < |s| ==> s[i] == sep
    ensures sep !in s[..i]
  {
    if s == [] then 0
    else if s[0] == sep then 0
    else 1 + IndexOf(s[1..], sep)
  }

  /** `s.split(sep)` for a one-character separator: the pieces between separators, ("" gives [""]). */
  function Split(s: string, sep: char): (parts: seq<string>)
    ensures |parts| >= 1
    ensures forall k :: 0 <= k < |parts| ==> sep !in parts[k]
    decreases |s|
  {
    var i := IndexOf(s, sep);
    if i == |s| then [s] else [s[..i]] + Split(s[i + 1..], sep)
  }

  /** `parts.join(sep)`. */
  function Join(parts: seq<string>, sep: char): string
    requires |parts| >= 1
  {
    if |parts| == 1 then parts[0] else parts[0] + [sep] + Join(parts[1..], sep)
  }

  /** Splitting and joining on the same separator gives back the original text. */
  lemma {:induction false} JoinSplit(s: string, sep: char)
    ensures Join(Split(s, sep), sep) == s
    decreases |s|
  {
    var i := IndexOf(s, sep);
    if i < |s| {
      var rest := Split(s[i + 1..], sep);
      var parts := [s[..i]] + rest;
      assert parts[0] == s[..i] && parts[1..] == rest;
      assert Join(parts, sep) == s[..i] + [sep] + Join(rest, sep);
      JoinSplit(s[i + 1..], sep);
      assert s[..i] + [sep] == s[..i + 1];
      assert s[..i + 1] + s[i + 1..] == s;
    }
  }

  /** Joining pieces that contain no separator and splitting again gives back the pieces. */
  lemma {:induction false} SplitJoin(parts: seq<string>, sep: char)
    requires |parts| >= 1
    requires forall k :: 0 <= k < |parts| ==> sep !in parts[k]
    ensures Split(Join(parts, sep), sep) == parts
  {
    var s := Join(parts, sep);
    if |parts| == 1 {
      assert IndexOf(s, sep) == |s|;
    } else {
      var rest := Join(parts[1..], sep);
      assert s == parts[0] + [sep] + rest;
      IndexOfAfter(parts[0], sep, rest);
      assert s[..|parts[0]|] == parts[0];
      assert s[|parts[0]| + 1..] == rest;
      SplitJoin(parts[1..], sep);
    }
  }

  lemma {:induction false} IndexOfAfter(a: string, sep: char, b: string)
    requires sep !in a
    ensures IndexOf(a + [sep] + b, sep) == |a|
  {
    if a != [] {
      assert (a + [sep] + b)[1..] == a[1..] + [sep] + b;
      IndexOfAfter(a[1..], sep, b);
    }
  }

  /** The decimal digits of `n`, most significant first, without leading zeros ("0" for zero). */
  function NatToDigits(n: nat): (r: string)
    ensures |r| >= 1
    ensures forall i :: 0 <= i < |r| ==> '0' <= r[i] <= '9'
    ensures n >= 10 ==> r[0] != '0'
    decreases n
  {
    if n < 10 then [('0' as int + n) as char] else NatToDigits(n / 10) + [('0' as int + n % 10) as char]
  }

  /** The value of a string of decimal digits. */
  function DigitsToNat(s: string): nat
    requires forall i :: 0 <= i < |s| ==> '0' <= s[i] <= '9'
  {
    if s == [] then 0 else DigitsToNat(s[..|s| - 1]) * 10 + (s[|s| - 1] as int - '0' as int)
  }

  /** Reading back the digits of `n` gives `n`. */
  lemma {:induction false} DigitsRoundTrip(n: nat)
    ensures DigitsToNat(NatToDigits(n)) == n
    decreases n
  {
    if n >= 10 {
      var d := NatToDigits(n);
      assert d[..|d| - 1] == NatToDigits(n / 10);
      DigitsRoundTrip(n / 10);
    }
  }

  /** Leading zeros do not change the value of a digit string. */
  lemma {:induction false} LeadingZeros(z: nat, s: string)
    requires forall i :: 0 <= i < |s| ==> '0' <= s[i] <= '9'
    ensures var t := seq(z, _ => '0') + s;
            (forall i :: 0 <= i < |t| ==> '0' <= t[i] <= '9') && DigitsToNat(t) == DigitsToNat(s)
    decreases |s|
  {
    var t := seq(z, _ => '0') + s;
    if s == [] {
      assert forall i :: 0 <= i < |t| ==> t[i] == '0';
      ZerosValue(z);
      assert t == seq(z, _ => '0');
    } else {
      LeadingZeros(z, s[..|s| - 1]);
      assert t[..|t| - 1] == seq(z, _ => '0') + s[..|s| - 1];
    }
  }

  lemma {:induction false} ZerosValue(z: nat)
    ensures DigitsToNat(seq(z, _ => '0')) == 0
  {
    if z > 0 {
      assert seq(z, _ => '0')[..z - 1] == seq(z - 1, _ => '0');
      ZerosValue(z - 1);
    }
  }

  /** `s.padStart(width, "0")`: `s` prefixed with as many '0' as it lacks to reach `width`. */
  function PadStartZero(s: string, width: nat): (r: string)
    ensures |r| == if |s| < width then width else |s|
    ensures r[|r| - |s|..] == s
    ensures forall i :: 0 <= i < |r| - |s| ==> r[i] == '0'
  {
    if |s| < width then seq(width - |s|, _ => '0') + s else s
  }
  // ---------------------------------------------------------------------------------------
  // Trimming a list

  /** Trims every element and drops those left empty: `xs.map(x => x.trim()).filter(Boolean)`. */
  function TrimNonBlank(xs: seq<string>): (r: seq<string>)
    ensures |r| <= |xs|
    ensures forall k :: 0 <= k < |r| ==> r[k] != "" && IsTrimmed(r[k])
  {
    if xs == [] then []
    else
      var t := Trim(xs[0]);
      (if t == "" then [] else [t]) + TrimNonBlank(xs[1..])
  }

  /** The cleaned elements are exactly the non-blank trimmed originals. */
  lemma {:induction false} TrimNonBlankMembers(xs: seq<string>, x: string)
    ensures x in TrimNonBlank(xs) <==> x != "" && exists j :: 0 <= j < |xs| && Trim(xs[j]) == x
  {
    if xs != [] {
      TrimNonBlankMembers(xs[1..], x);
      var t := Trim(xs[0]);
      var rest := TrimNonBlank(xs[1..]);
      assert TrimNonBlank(xs) == (if t == "" then [] else [t]) + rest;
      if exists j :: 0 <= j < |xs| && Trim(xs[j]) == x {
        var j :| 0 <= j < |xs| && Trim(xs[j]) == x;
        if j > 0 {
          assert xs[1..][j - 1] == xs[j];
        }
      }
      if exists j :: 0 <= j < |xs[1..]| && Trim(xs[1..][j]) == x {
        var j :| 0 <= j < |xs[1..]| && Trim(xs[1..][j]) == x;
        assert xs[j + 1] == xs[1..][j];
      }
    }
  }

  /** Cleaning already-clean elements changes nothing; in particular cleaning is idempotent. */
  lemma {:induction false} TrimNonBlankOfClean(xs: seq<string>)
    requires forall k :: 0 <= k < |xs| ==> xs[k] != "" && IsTrimmed(xs[k])
    ensures TrimNonBlank(xs) == xs
  {
    if xs != [] {
      TrimOfTrimmed(xs[0]);
      assert forall k :: 0 <= k < |xs[1..]| ==> xs[1..][k] == xs[k + 1];
      TrimNonBlankOfClean(xs[1..]);
      assert TrimNonBlank(xs) == [xs[0]] + xs[1..];
    }
  }

  /** Trimming never introduces a character. */
  lemma TrimKeepsAbsent(s: string, c: char)
    requires c !in s
    ensures c !in Trim(s)
  {
  }
}
