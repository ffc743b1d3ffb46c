/** The string primitives of .NET that the factory relies on, written out:
    ordinal `IndexOf`, `TrimStart(U+FEFF)`, `Trim`, `int.TryParse` and
    `String.Split` on single-character separators. */
module Text {
  import opened Wrappers

  // ---------------------------------------------------------------------
  // Ordinal substring search
  // ---------------------------------------------------------------------

  predicate OccursAt(t: string, pat: string, q: int) {
    0 <= q && q + |pat| <= |t| && t[q..q + |pat|] == pat
  }

  /** The first position at or after `start` where `pat` occurs. */
  function IndexFrom(t: string, pat: string, start: nat): (r: Option<nat>)
    ensures r.Some? ==> start <= r.value && OccursAt(t, pat, r.value)
    ensures r.Some? ==> forall q :: start <= q < r.value ==> !OccursAt(t, pat, q)
    ensures r.None? ==> forall q :: start <= q ==> !OccursAt(t, pat, q)
    decreases |t| - start
  {
    if start + |pat| > |t| then None
    else if t[start..start + |pat|] == pat then Some(start)
    else IndexFrom(t, pat, start + 1)
  }

  /** `t.IndexOf(pat, StringComparison.Ordinal)`, with a miss as `None`. */
  function IndexOf(t: string, pat: string): (r: Option<nat>)
    ensures r.Some? ==> OccursAt(t, pat, r.value)
    ensures r.Some? ==> forall q :: 0 <= q < r.value ==> !OccursAt(t, pat, q)
    ensures r.None? ==> forall q :: 0 <= q ==> !OccursAt(t, pat, q)
  {
    IndexFrom(t, pat, 0)
  }

  /** An occurrence in a prefix of `t` is an occurrence in `t`, so the first
      one in the prefix, if any, is the first one in `t`. */
  lemma IndexOfPrefix(t: string, pat: string, n: nat)
    requires n <= |t|
    requires IndexOf(t, pat).Some?
    ensures IndexOf(t[..n], pat).Some? ==> IndexOf(t[..n], pat) == IndexOf(t, pat)
    ensures IndexOf(t, pat).value + |pat| <= n ==> IndexOf(t[..n], pat) == IndexOf(t, pat)
  {
    var p := IndexOf(t, pat).value;
    var r := IndexOf(t[..n], pat);
    if p + |pat| <= n {
      assert t[..n][p..p + |pat|] == t[p..p + |pat|];
      assert OccursAt(t[..n], pat, p);
    }
    if r.Some? {
      var q := r.value;
      assert t[..n][q..q + |pat|] == t[q..q + |pat|];
      assert OccursAt(t, pat, q);
    }
  }

  /** Text appended after the first occurrence does not move it. */
  lemma IndexOfExtend(t: string, pat: string, rest: string)
    requires IndexOf(t, pat).Some?
    ensures IndexOf(t + rest, pat) == IndexOf(t, pat)
  {
    IndexOfPrefix(t + rest, pat, |t|) by {
      var p := IndexOf(t, pat).value;
      assert (t + rest)[p..p + |pat|] == t[p..p + |pat|];
      assert OccursAt(t + rest, pat, p);
    }
    assert (t + rest)[..|t|] == t;
  }

  // ---------------------------------------------------------------------
  // Trimming
  // ---------------------------------------------------------------------

  const Bom: char := '\U{FEFF}'

  /** `s.TrimStart(U+FEFF)`: drops every leading byte-order mark. */
  function TrimStartBom(s: string): (r: string)
    ensures |r| <= |s| && r == s[|s| - |r|..]
    ensures forall i :: 0 <= i < |s| - |r| ==> s[i] == Bom
    ensures r == [] || r[0] != Bom
  {
    if s != [] && s[0] == Bom then
      var r := TrimStartBom(s[1..]);
      assert s[1..][|s| - 1 - |r|..] == s[|s| - |r|..];
      r
    else s
  }

  /** The number of byte-order marks `TrimStartBom` removes. */
  function BomCount(s: string): nat { |s| - |TrimStartBom(s)| }

  /** Stripping the marks of a prefix gives the matching prefix of the
      stripped text. */
  lemma {:induction false} TrimStartBomPrefix(s: string, n: nat)
    requires n <= |s|
    ensures TrimStartBom(s[..n]) ==
      if n <= BomCount(s) then [] else TrimStartBom(s)[..n - BomCount(s)]
  {
    var k := BomCount(s);
    if n <= k {
      TrimStartBomAt(s[..n], n);
      assert s[..n][n..] == [];
    } else {
      assert s[k] != Bom;
      TrimStartBomAt(s[..n], k);
      assert s[..n][k..] == s[k..][..n - k];
    }
  }

  /** A text that starts with exactly `j` marks loses exactly those. */
  lemma {:induction false} TrimStartBomAt(x: string, j: nat)
    requires j <= |x| && (j == |x| || x[j] != Bom)
    requires forall i :: 0 <= i < j ==> x[i] == Bom
    ensures TrimStartBom(x) == x[j..]
  {
    if j > 0 {
      assert x[0] == Bom;
      TrimStartBomAt(x[1..], j - 1);
      assert x[1..][j - 1..] == x[j..];
    }
  }

  /** Appending text after a non-mark character leaves the stripping alone. */
  lemma {:induction false} TrimStartBomAppend(s: string, rest: string)
    requires TrimStartBom(s) != []
    ensures TrimStartBom(s + rest) == TrimStartBom(s) + rest
  {
    assert (s + rest)[0] == s[0];
    if s[0] == Bom {
      assert TrimStartBom(s) == TrimStartBom(s[1..]);
      assert (s + rest)[1..] == s[1..] + rest;
      TrimStartBomAppend(s[1..], rest);
    } else {
      assert TrimStartBom(s) == s;
    }
  }

  /** The whitespace `Trim` removes (ASCII only in this model). */
  predicate IsWhiteSpace(c: char) {
    c == ' ' || c == '\t' || c == '\n' || c == '\r' || c == '\U{B}' || c == '\U{C}'
  }

  predicate IsWhiteSpaceOnly(s: string) {
    forall i :: 0 <= i < |s| ==> IsWhiteSpace(s[i])
  }

  function TrimStart(s: string): (r: string)
    ensures |r| <= |s| && r == s[|s| - |r|..]
    ensures forall i :: 0 <= i < |s| - |r| ==> IsWhiteSpace(s[i])
    ensures r == [] || !IsWhiteSpace(r[0])
  {
    if s != [] && IsWhiteSpace(s[0]) then TrimStart(s[1..]) else s
  }

  function TrimEnd(s: string): (r: string)
    ensures |r| <= |s| && r == s[..|r|]
    ensures forall i :: |r| <= i < |s| ==> IsWhiteSpace(s[i])
    ensures r == [] || !IsWhiteSpace(r[|r| - 1])
  {
    if s != [] && IsWhiteSpace(s[|s| - 1]) then TrimEnd(s[..|s| - 1]) else s
  }

  /** `s.Trim()`: the slice of `s` starting after its leading whitespace,
      with no whitespace at either end and only whitespace cut off after it. */
  function Trim(s: string): (r: string)
    ensures |s| - |TrimStart(s)| + |r| <= |s|
    ensures r == s[|s| - |TrimStart(s)|..][..|r|]
    ensures forall i :: |s| - |TrimStart(s)| + |r| <= i < |s| ==> IsWhiteSpace(s[i])
    ensures r == [] || (!IsWhiteSpace(r[0]) && !IsWhiteSpace(r[|r| - 1]))
  {
    var u := TrimStart(s);
    TrimEndOfSuffix(s, |s| - |u|);
    TrimEnd(u)
  }

  /** `TrimEnd` of a suffix of `s`, seen from `s`: a prefix of that suffix,
      followed in `s` only by whitespace. */
  lemma TrimEndOfSuffix(s: string, a: nat)
    requires a <= |s|
    ensures a + |TrimEnd(s[a..])| <= |s|
    ensures TrimEnd(s[a..]) == s[a..][..|TrimEnd(s[a..])|]
    ensures forall i :: a + |TrimEnd(s[a..])| <= i < |s| ==> IsWhiteSpace(s[i])
  {
    var u := s[a..];
    var v := TrimEnd(u);
    forall i | a + |v| <= i < |s|
      ensures IsWhiteSpace(s[i])
    {
      assert s[i] == u[i - a];
    }
  }

  /** Blank text trims to nothing. */
  lemma TrimWhiteSpaceOnly(s: string)
    requires IsWhiteSpaceOnly(s)
    ensures Trim(s) == []
  {
  }

  // ---------------------------------------------------------------------
  // Integer parsing (int.TryParse with NumberStyles.Integer, invariant
  // culture) and its inverse on naturals
  // ---------------------------------------------------------------------

  const Int32Min: int := -0x8000_0000
  const Int32Max: int := 0x7FFF_FFFF

  predicate IsDigit(c: char) { '0' <= c <= '9' }

  predicate AllDigits(s: string) { forall i :: 0 <= i < |s| ==> IsDigit(s[i]) }

  function DigitValue(c: char): nat requires IsDigit(c) { c as nat - '0' as nat }

  /** The decimal value of a string of digits. */
  function DigitsValue(s: string): nat
    requires AllDigits(s)
  {
    if s == [] then 0 else DigitsValue(s[..|s| - 1]) * 10 + DigitValue(s[|s| - 1])
  }

  /** An optional sign followed by at least one digit, in the 32-bit range;
      leading and trailing whitespace is allowed, as `TryParse` allows it. */
  function ParseInt(s: string): (r: Option<int>)
    ensures r.Some? ==> Int32Min <= r.value <= Int32Max
  {
    var t := Trim(s);
    var negative := |t| > 0 && t[0] == '-';
    var digits := if |t| > 0 && (t[0] == '-' || t[0] == '+') then t[1..] else t;
    if digits == [] || !AllDigits(digits) then None
    else
      var d: int := DigitsValue(digits);
      var v := if negative then -d else d;
      if Int32Min <= v <= Int32Max then Some(v) else None
  }

  function Pow10(k: nat): nat { if k == 0 then 1 else 10 * Pow10(k - 1) }

  lemma {:induction false} DigitsValueBound(s: string)
    requires AllDigits(s)
    ensures DigitsValue(s) < Pow10(|s|)
  {
    if s != [] {
      DigitsValueBound(s[..|s| - 1]);
    }
  }

  /** A run of at most nine digits parses to its decimal value. */
  lemma ParseIntDigits(s: string)
    requires 0 < |s| <= 9 && AllDigits(s)
    ensures ParseInt(s) == Some(DigitsValue(s))
  {
    DigitsValueBound(s);
    assert Pow10(9) == 1_000_000_000;
    PowMonotone(|s|, 9);
    ParseIntUnsigned(s);
  }

  /** A run of digits parses to its value when that is in range. */
  lemma ParseIntUnsigned(s: string)
    requires s != [] && AllDigits(s)
    ensures ParseInt(s) == if DigitsValue(s) <= Int32Max then Some(DigitsValue(s)) else None
  {
    TrimUnchanged(s);
  }

  /** A minus sign followed by a run of digits parses to the negated value
      when that is in range. */
  lemma ParseIntNegative(t: string)
    requires |t| > 1 && t[0] == '-' && AllDigits(t[1..])
    ensures ParseInt(t) ==
      if DigitsValue(t[1..]) <= -Int32Min then Some(-(DigitsValue(t[1..]) as int)) else None
  {
    assert IsDigit(t[1..][|t| - 2]);
    TrimUnchanged(t);
  }

  lemma {:induction false} PowMonotone(j: nat, k: nat)
    requires j <= k
    ensures Pow10(j) <= Pow10(k)
  {
    if j < k {
      PowMonotone(j, k - 1);
    }
  }

  /** The decimal rendering of a natural number, without leading zeros. */
  function ShowNat(n: nat): (s: string)
    ensures |s| > 0 && AllDigits(s)
  {
    if n < 10 then ['0' + n as char] else ShowNat(n / 10) + ['0' + (n % 10) as char]
  }

  lemma {:induction false} DigitsValueShowNat(n: nat)
    ensures DigitsValue(ShowNat(n)) == n
  {
    if n >= 10 {
      DigitsValueShowNat(n / 10);
      var s := ShowNat(n);
      assert s[..|s| - 1] == ShowNat(n / 10);
    }
  }

  /** A string that starts and ends with something other than whitespace
      is its own trim. */
  lemma TrimUnchanged(s: string)
    requires s != [] && !IsWhiteSpace(s[0]) && !IsWhiteSpace(s[|s| - 1])
    ensures Trim(s) == s
  {
    assert TrimStart(s) == s;
    assert TrimEnd(s) == s;
  }

  /** Parsing inverts rendering, for every non-negative value `int` holds. */
  lemma ParseIntShowNat(n: nat)
    requires n <= Int32Max
    ensures ParseInt(ShowNat(n)) == Some(n)
  {
    var s := ShowNat(n);
    DigitsValueShowNat(n);
    ParseIntUnsigned(s);
    assert ParseInt(s) == Some(DigitsValue(s));
  }

  /** ... and, with a minus sign, every negative one. */
  lemma ParseIntNegShowNat(n: nat)
    requires n <= -Int32Min
    ensures ParseInt("-" + ShowNat(n)) == Some(-(n as int))
  {
    var u := ShowNat(n);
    var t := "-" + u;
    assert t[1..] == u;
    DigitsValueShowNat(n);
    ParseIntNegative(t);
    assert DigitsValue(t[1..]) == n;
  }

  // ---------------------------------------------------------------------
  // String.Split(string[], StringSplitOptions.None) on one-character
  // separators
  // ---------------------------------------------------------------------

  predicate NoSeparator(s: string, seps: set<char>) {
    forall i :: 0 <= i < |s| ==> s[i] !in seps
  }

  /** The tokens between separator characters, empty ones included. */
  function Split(s: string, seps: set<char>): (r: seq<string>)
    ensures |r| >= 1
    ensures forall k :: 0 <= k < |r| ==> NoSeparator(r[k], seps)
  {
    if s == [] then [""]
    else
      var rest := Split(s[1..], seps);
      if s[0] in seps then [""] + rest
      else [[s[0]] + rest[0]] + rest[1..]
  }

  /** The separator characters of `s`, in the order they occur. */
  function SeparatorsIn(s: string, seps: set<char>): (r: string)
    ensures |r| <= |s|
    ensures forall i :: 0 <= i < |r| ==> r[i] in seps
  {
    if s == [] then []
    else (if s[0] in seps then [s[0]] else []) + SeparatorsIn(s[1..], seps)
  }

  /** One step of `Split`: a separator ends a token, any other character
      extends the first token. */
  lemma SplitCons(c: char, tail: string, seps: set<char>)
    ensures Split([c] + tail, seps) ==
      if c in seps then [""] + Split(tail, seps)
      else [[c] + Split(tail, seps)[0]] + Split(tail, seps)[1..]
  {
    assert ([c] + tail)[1..] == tail;
  }

  /** `tokens[0] + delims[0] + tokens[1] + ... + tokens[n]`. */
  function Weave(tokens: seq<string>, delims: string): string
    requires |tokens| == |delims| + 1
  {
    if delims == [] then tokens[0]
    else tokens[0] + [delims[0]] + Weave(tokens[1..], delims[1..])
  }

  /** `String.Join(sep, tokens)`. */
  function Join(tokens: seq<string>, sep: char): string
    requires |tokens| >= 1
  {
    if |tokens| == 1 then tokens[0] else tokens[0] + [sep] + Join(tokens[1..], sep)
  }

  /** Where token `i` starts in `Join(tokens, sep)`. */
  function JoinStart(tokens: seq<string>, i: nat): nat
    requires i < |tokens|
  {
    if i == 0 then 0 else JoinStart(tokens, i - 1) + |tokens[i - 1]| + 1
  }

  /** Token positions seen from the second token on. */
  lemma {:induction false} JoinStartTail(tokens: seq<string>, i: nat)
    requires 0 < i < |tokens|
    ensures JoinStart(tokens, i) == |tokens[0]| + 1 + JoinStart(tokens[1..], i - 1)
  {
    if i > 1 {
      JoinStartTail(tokens, i - 1);
    }
  }

  /** The joined text is the first token, the separator, and the rest
      joined. */
  lemma JoinShift(tokens: seq<string>, sep: char, x: nat)
    requires |tokens| > 1 && x < |Join(tokens[1..], sep)|
    ensures |tokens[0]| + 1 + x < |Join(tokens, sep)|
    ensures Join(tokens, sep)[|tokens[0]| + 1 + x] == Join(tokens[1..], sep)[x]
  {
  }

  /** Token `i` ends where the separator after it sits, or where the text
      ends when it is the last token. */
  lemma {:induction false} JoinSeparatorAt(tokens: seq<string>, sep: char, i: nat)
    requires i < |tokens|
    ensures JoinStart(tokens, i) + |tokens[i]| + (if i + 1 < |tokens| then 1 else 0) <= |Join(tokens, sep)|
    ensures i + 1 < |tokens| ==> Join(tokens, sep)[JoinStart(tokens, i) + |tokens[i]|] == sep
    ensures i + 1 == |tokens| ==> JoinStart(tokens, i) + |tokens[i]| == |Join(tokens, sep)|
  {
    if |tokens| > 1 && i > 0 {
      JoinStartTail(tokens, i);
      JoinSeparatorAt(tokens[1..], sep, i - 1);
      assert tokens[1..][i - 1] == tokens[i];
      if i + 1 < |tokens| {
        JoinShift(tokens, sep, JoinStart(tokens[1..], i - 1) + |tokens[i]|);
      }
    }
  }

  /** Token `i` sits at `JoinStart(tokens, i)` in the joined text. */
  lemma {:induction false} JoinAt(tokens: seq<string>, sep: char, i: nat)
    requires i < |tokens|
    ensures JoinStart(tokens, i) + |tokens[i]| <= |Join(tokens, sep)|
    ensures Join(tokens, sep)[JoinStart(tokens, i)..JoinStart(tokens, i) + |tokens[i]|] == tokens[i]
  {
    JoinSeparatorAt(tokens, sep, i);
    var j := Join(tokens, sep);
    var st := JoinStart(tokens, i);
    forall m | 0 <= m < |tokens[i]|
      ensures j[st + m] == tokens[i][m]
    {
      JoinCharAt(tokens, sep, i, m);
    }
  }

  /** Character `m` of token `i` in the joined text. */
  lemma {:induction false} JoinCharAt(tokens: seq<string>, sep: char, i: nat, m: nat)
    requires i < |tokens| && m < |tokens[i]|
    ensures JoinStart(tokens, i) + m < |Join(tokens, sep)|
    ensures Join(tokens, sep)[JoinStart(tokens, i) + m] == tokens[i][m]
  {
    JoinSeparatorAt(tokens, sep, i);
    if |tokens| > 1 {
      if i > 0 {
        JoinStartTail(tokens, i);
        JoinCharAt(tokens[1..], sep, i - 1, m);
        assert tokens[1..][i - 1] == tokens[i];
        JoinShift(tokens, sep, JoinStart(tokens[1..], i - 1) + m);
      }
    }
  }

  /** Putting a character in front of the first token puts it in front of
      the woven text. */
  lemma WeavePrepend(c: char, tokens: seq<string>, delims: string)
    requires |tokens| == |delims| + 1
    ensures Weave([[c] + tokens[0]] + tokens[1..], delims) == [c] + Weave(tokens, delims)
  {
    if delims != [] {
      var tl := [[c] + tokens[0]] + tokens[1..];
      assert tl[1..] == tokens[1..];
    }
  }

  /** Splitting yields one token more than there are separators, and putting
      the separators back between the tokens gives back the text. */
  lemma {:induction false} SplitWeave(s: string, seps: set<char>)
    ensures |Split(s, seps)| == |SeparatorsIn(s, seps)| + 1
    ensures Weave(Split(s, seps), SeparatorsIn(s, seps)) == s
  {
    if s != [] {
      SplitWeave(s[1..], seps);
      var rest := Split(s[1..], seps);
      var ds := SeparatorsIn(s[1..], seps);
      if s[0] in seps {
        assert Split(s, seps)[1..] == rest;
        assert SeparatorsIn(s, seps) == [s[0]] + ds;
        assert ([s[0]] + ds)[1..] == ds;
        assert s == [s[0]] + s[1..];
      } else {
        assert SeparatorsIn(s, seps) == ds;
        WeavePrepend(s[0], rest, ds);
        assert s == [s[0]] + s[1..];
      }
    }
  }

  /** With one separator character, joining the tokens gives back the text. */
  lemma JoinSplit(s: string, c: char)
    ensures Join(Split(s, {c}), c) == s
  {
    SplitWeave(s, {c});
    WeaveConstant(Split(s, {c}), SeparatorsIn(s, {c}), c);
  }

  lemma {:induction false} WeaveConstant(tokens: seq<string>, delims: string, c: char)
    requires |tokens| == |delims| + 1
    requires forall i :: 0 <= i < |delims| ==> delims[i] in {c}
    ensures Weave(tokens, delims) == Join(tokens, c)
  {
    if delims != [] {
      WeaveConstant(tokens[1..], delims[1..], c);
    }
  }

  lemma {:induction false} SplitThroughToken(a: string, tail: string, seps: set<char>)
    requires NoSeparator(a, seps)
    ensures Split(a + tail, seps) == [a + Split(tail, seps)[0]] + Split(tail, seps)[1..]
  {
    if a != [] {
      assert (a + tail)[1..] == a[1..] + tail;
      SplitThroughToken(a[1..], tail, seps);
      assert [a[0]] + (a[1..] + Split(tail, seps)[0]) == a + Split(tail, seps)[0];
    } else {
      assert a + tail == tail;
      assert a + Split(tail, seps)[0] == Split(tail, seps)[0];
      assert Split(tail, seps) == [Split(tail, seps)[0]] + Split(tail, seps)[1..];
    }
  }

  /** Splitting a join of separator-free tokens gives back the tokens. */
  lemma {:induction false} SplitJoin(tokens: seq<string>, c: char)
    requires |tokens| >= 1
    requires forall k :: 0 <= k < |tokens| ==> NoSeparator(tokens[k], {c})
    ensures Split(Join(tokens, c), {c}) == tokens
  {
    if |tokens| == 1 {
      SplitThroughToken(tokens[0], "", {c});
      assert tokens[0] + "" == tokens[0];
      assert Split("", {c}) == [""];
      assert tokens == [tokens[0]];
    } else {
      var rest := Join(tokens[1..], c);
      SplitJoin(tokens[1..], c);
      assert Join(tokens, c) == tokens[0] + ([c] + rest);
      SplitThroughToken(tokens[0], [c] + rest, {c});
      assert ([c] + rest)[1..] == rest;
      assert Split([c] + rest, {c}) == [""] + Split(rest, {c});
      assert tokens[0] + "" == tokens[0];
      assert tokens == [tokens[0]] + tokens[1..];
    }
  }

  /** Splitting separator-free tokens woven with separators gives back the
      tokens, whichever separator stands between them. */
  lemma {:induction false} SplitWeaveInverse(tokens: seq<string>, delims: string, seps: set<char>)
    requires |tokens| == |delims| + 1
    requires forall k :: 0 <= k < |tokens| ==> NoSeparator(tokens[k], seps)
    requires forall i :: 0 <= i < |delims| ==> delims[i] in seps
    ensures Split(Weave(tokens, delims), seps) == tokens
  {
    if delims == [] {
      SplitThroughToken(tokens[0], "", seps);
      assert tokens[0] + "" == tokens[0];
      assert Split("", seps) == [""];
      assert tokens == [tokens[0]];
    } else {
      var rest := Weave(tokens[1..], delims[1..]);
      SplitWeaveInverse(tokens[1..], delims[1..], seps);
      assert Weave(tokens, delims) == tokens[0] + ([delims[0]] + rest);
      SplitThroughToken(tokens[0], [delims[0]] + rest, seps);
      SplitCons(delims[0], rest, seps);
      assert tokens[0] + "" == tokens[0];
      assert tokens == [tokens[0]] + tokens[1..];
    }
  }
}
