/**
  The string operations of Rust's standard library that the modelled code calls: searching,
  splitting, trimming, and reading and printing decimal numbers. A string is a sequence of characters.
 */
module Text {
  import opened Wrappers

  lemma JoinThree<T>(a: seq<T>, b: seq<T>, c: seq<T>)
    ensures a + (b + c) == (a + b) + c
  {
  }

  /** ASCII lower case: the letters from A to Z move up by 32, and nothing else changes. */
  function Lower(s: string): (r: string)
    ensures |r| == |s|
    ensures forall i :: 0 <= i < |s| ==> r[i] as int == s[i] as int + (if 65 <= s[i] as int <= 90 then 32 else 0)
  {
    seq(|s|, i requires 0 <= i < |s| => if 'A' <= s[i] <= 'Z' then s[i] - 'A' + 'a' else s[i])
  }

  // ---- Searching ----

  predicate OccursAt<T(==)>(s: seq<T>, pat: seq<T>, i: int) {
    0 <= i && i + |pat| <= |s| && s[i..i + |pat|] == pat
  }

  ghost predicate Occurs<T>(s: seq<T>, pat: seq<T>) {
    exists i :: OccursAt(s, pat, i)
  }

  /** The position of the first occurrence of `pat`. */
  function Find<T(==)>(s: seq<T>, pat: seq<T>): (r: Option<nat>)
    ensures r.None? ==> forall i :: !OccursAt(s, pat, i)
    ensures r.Some? ==> OccursAt(s, pat, r.value) && forall i :: 0 <= i < r.value ==> !OccursAt(s, pat, i)
  {
    if |s| < |pat| then None
    else if s[..|pat|] == pat then Some(0)
    else
      var r := Find(s[1..], pat);
      assert forall i :: 1 <= i ==> OccursAt(s, pat, i) == OccursAt(s[1..], pat, i - 1) by {
        forall i | 1 <= i
          ensures OccursAt(s, pat, i) == OccursAt(s[1..], pat, i - 1)
        {
          OccursInTail(s, pat, i);
        }
      }
      assert !OccursAt(s, pat, 0);
      if r.None? then None else Some(r.value + 1)
  }

  lemma OccursInTail<T>(s: seq<T>, pat: seq<T>, i: int)
    requires s != [] && 1 <= i
    ensures OccursAt(s, pat, i) == OccursAt(s[1..], pat, i - 1)
  {
    if i + |pat| <= |s| {
      var here, there := s[i..i + |pat|], s[1..][i - 1..i - 1 + |pat|];
      forall k | 0 <= k < |pat|
        ensures here[k] == there[k]
      {
        assert here[k] == s[i + k] && there[k] == s[1..][i - 1 + k];
      }
      assert here == there;
    }
  }

  /** Everything before and everything after the first occurrence of `pat`. */
  function SplitOnce(s: string, pat: string): Option<(string, string)> {
    var i :- Find(s, pat);
    Some((s[..i], s[i + |pat|..]))
  }

  /** The pieces between the occurrences of the character `c`; there is always at least one. */
  function Split(s: string, c: char): (r: seq<string>)
    ensures r != []
    decreases |s|
  {
    match Find(s, [c])
    case None => [s]
    case Some(i) => [s[..i]] + Split(s[i + 1..], c)
  }

  lemma SplitOnceAt(a: string, pat: string, b: string)
    requires forall i :: 0 <= i < |a| ==> !OccursAt(a + pat + b, pat, i)
    ensures SplitOnce(a + pat + b, pat) == Some((a, b))
  {
    var s := a + pat + b;
    assert OccursAt(s, pat, |a|);
    var i := Find(s, pat).value;
    assert s[..i] == a && s[i + |pat|..] == b;
  }

  lemma SplitOnceChar(a: string, c: char, b: string)
    requires c !in a
    ensures SplitOnce(a + [c] + b, [c]) == Some((a, b))
  {
    var s := a + [c] + b;
    forall i | 0 <= i < |a|
      ensures !OccursAt(s, [c], i)
    {
      assert s[i] == a[i] && a[i] in a;
    }
    SplitOnceAt(a, [c], b);
  }

  lemma NoOccurrence(s: string, c: char)
    ensures c !in s <==> Find(s, [c]).None?
  {
    if c in s {
      var i :| 0 <= i < |s| && s[i] == c;
      assert OccursAt(s, [c], i);
    } else {
      forall i
        ensures !OccursAt(s, [c], i)
      {
        if 0 <= i < |s| {
          assert s[i] != c && s[i..i + 1][0] == s[i];
        }
      }
    }
  }

  /** The text around the first occurrence of a character. */
  lemma AroundFirst(s: string, c: char)
    requires c in s
    ensures Find(s, [c]).Some?
    ensures var i := Find(s, [c]).value; s == s[..i] + [c] + s[i + 1..] && c !in s[..i]
  {
    NoOccurrence(s, c);
    var i := Find(s, [c]).value;
    assert s[i] == s[i..i + 1][0] == c;
    forall k | 0 <= k < i
      ensures s[k] != c
    {
      assert !OccursAt(s, [c], k);
      assert s[k..k + 1][0] == s[k];
    }
  }

  lemma SplitCons(a: string, c: char, b: string)
    requires c !in a
    ensures Split(a + [c] + b, c) == [a] + Split(b, c)
  {
    SplitOnceChar(a, c, b);
    var s := a + [c] + b;
    var i := Find(s, [c]).value;
    assert i == |a| by {
      assert (a, b) == (s[..i], s[i + 1..]);
      assert |s[..i]| == i;
    }
  }

  lemma SplitOne(a: string, c: char)
    requires c !in a
    ensures Split(a, c) == [a]
  {
    NoOccurrence(a, c);
  }

  lemma {:induction false} SplitPiecesAvoid(s: string, c: char)
    ensures forall p :: p in Split(s, c) ==> c !in p
    decreases |s|
  {
    match Find(s, [c])
    case None => NoOccurrence(s, c);
    case Some(i) =>
      SplitPiecesAvoid(s[i + 1..], c);
      if c in s[..i] {
        var j :| 0 <= j < i && s[j] == c;
        assert OccursAt(s, [c], j);
      }
  }

  /** The pieces put together again, with the character between them. */
  function Join(pieces: seq<string>, c: char): string
    requires pieces != []
  {
    if |pieces| == 1 then pieces[0] else pieces[0] + [c] + Join(pieces[1..], c)
  }

  lemma {:induction false} SplitJoin(pieces: seq<string>, c: char)
    requires pieces != [] && forall p :: p in pieces ==> c !in p
    ensures Split(Join(pieces, c), c) == pieces
  {
    hide Split;
    if |pieces| == 1 {
      SplitOne(pieces[0], c);
    } else {
      SplitJoin(pieces[1..], c);
      SplitCons(pieces[0], c, Join(pieces[1..], c));
    }
  }

  lemma {:induction false} JoinSplit(s: string, c: char)
    ensures Join(Split(s, c), c) == s
    decreases |s|
  {
    if c in s {
      AroundFirst(s, c);
      var i := Find(s, [c]).value;
      JoinSplit(s[i + 1..], c);
      assert Split(s, c)[1..] == Split(s[i + 1..], c);
    } else {
      NoOccurrence(s, c);
    }
  }

  // ---- White space ----

  /** The characters with the Unicode White_Space property. */
  predicate IsWhitespace(c: char) {
    var n := c as int;
    9 <= n <= 13 || n == 32 || n == 0x85 || n == 0xA0 || n == 0x1680 || 0x2000 <= n <= 0x200A
    || n == 0x2028 || n == 0x2029 || n == 0x202F || n == 0x205F || n == 0x3000
  }

  /** The list of Unicode's PropList.txt. */
  lemma WhitespaceIsUnicode(c: char)
    ensures IsWhitespace(c) <==>
            c as int in {0x9, 0xA, 0xB, 0xC, 0xD, 0x20, 0x85, 0xA0, 0x1680, 0x2000, 0x2001, 0x2002, 0x2003, 0x2004,
                         0x2005, 0x2006, 0x2007, 0x2008, 0x2009, 0x200A, 0x2028, 0x2029, 0x202F, 0x205F, 0x3000}
  {
  }

  function TrimStart(s: string): string {
    if s != "" && IsWhitespace(s[0]) then TrimStart(s[1..]) else s
  }

  function TrimEnd(s: string): string {
    if s != "" && IsWhitespace(s[|s| - 1]) then TrimEnd(s[..|s| - 1]) else s
  }

  function Trim(s: string): string {
    TrimEnd(TrimStart(s))
  }

  predicate IsTrimmed(s: string) {
    s != "" ==> !IsWhitespace(s[0]) && !IsWhitespace(s[|s| - 1])
  }

  lemma {:induction false} TrimStartIsSuffix(s: string)
    ensures |TrimStart(s)| <= |s| && TrimStart(s) == s[|s| - |TrimStart(s)|..]
    ensures TrimStart(s) != "" ==> !IsWhitespace(TrimStart(s)[0])
  {
    if s != "" && IsWhitespace(s[0]) {
      TrimStartIsSuffix(s[1..]);
    }
  }

  lemma {:induction false} TrimEndIsPrefix(s: string)
    ensures TrimEnd(s) <= s
    ensures TrimEnd(s) != "" ==> !IsWhitespace(TrimEnd(s)[|TrimEnd(s)| - 1])
  {
    if s != "" && IsWhitespace(s[|s| - 1]) {
      TrimEndIsPrefix(s[..|s| - 1]);
    }
  }

  /** Trimming leaves nothing to trim, adds no character, and leaves a trimmed string alone. */
  lemma TrimTrims(s: string)
    ensures IsTrimmed(Trim(s))
    ensures IsTrimmed(s) ==> Trim(s) == s
    ensures forall c :: c in Trim(s) ==> c in s
  {
    TrimStartIsSuffix(s);
    TrimEndIsPrefix(TrimStart(s));
  }

  /** Trimming takes off white space at the two ends only. */
  lemma {:induction false} TrimStartDrops(s: string)
    ensures |TrimStart(s)| <= |s| && forall i :: 0 <= i < |s| - |TrimStart(s)| ==> IsWhitespace(s[i])
  {
    if s != "" && IsWhitespace(s[0]) {
      TrimStartDrops(s[1..]);
      assert forall i :: 1 <= i < |s| ==> s[i] == s[1..][i - 1];
    }
  }

  lemma {:induction false} TrimEndDrops(s: string)
    ensures |TrimEnd(s)| <= |s| && forall i :: |TrimEnd(s)| <= i < |s| ==> IsWhitespace(s[i])
  {
    if s != "" && IsWhitespace(s[|s| - 1]) {
      TrimEndDrops(s[..|s| - 1]);
    }
  }

  lemma TrimCuts(s: string) returns (i: nat, j: nat)
    ensures i <= j <= |s| && Trim(s) == s[i..j]
    ensures forall k :: 0 <= k < i || j <= k < |s| ==> IsWhitespace(s[k])
  {
    hide IsWhitespace;
    TrimStartIsSuffix(s);
    TrimStartDrops(s);
    var t := TrimStart(s);
    TrimEndIsPrefix(t);
    TrimEndDrops(t);
    i, j := |s| - |t|, |s| - |t| + |TrimEnd(t)|;
    forall k | j <= k < |s|
      ensures IsWhitespace(s[k])
    {
      assert s[k] == t[k - i];
    }
  }

  predicate AllWhitespace(s: string) {
    forall i :: 0 <= i < |s| ==> IsWhitespace(s[i])
  }

  lemma {:induction false} TrimStartPadded(a: string, s: string)
    requires AllWhitespace(a)
    ensures TrimStart(a + s) == TrimStart(s)
  {
    hide IsWhitespace;
    if a == "" {
      assert a + s == s;
    } else {
      assert (a + s)[0] == a[0] && (a + s)[1..] == a[1..] + s;
      TrimStartPadded(a[1..], s);
    }
  }

  lemma {:induction false} TrimEndPadded(s: string, b: string)
    requires AllWhitespace(b)
    ensures TrimEnd(s + b) == TrimEnd(s)
  {
    hide IsWhitespace;
    if b == "" {
      assert s + b == s;
    } else {
      var front := b[..|b| - 1];
      assert (s + b)[|s + b| - 1] == b[|b| - 1] && (s + b)[..|s + b| - 1] == s + front;
      TrimEndPadded(s, front);
    }
  }

  lemma {:induction false} TrimStartOfAll(s: string)
    requires AllWhitespace(s)
    ensures TrimStart(s) == ""
  {
    if s != "" {
      TrimStartOfAll(s[1..]);
    }
  }

  /** Either nothing is left of `s` or what comes behind it is kept. */
  lemma {:induction false} TrimStartKeeps(s: string, b: string)
    ensures TrimStart(s) != "" ==> TrimStart(s + b) == TrimStart(s) + b
    ensures TrimStart(s) == "" ==> AllWhitespace(s)
  {
    if s != "" {
      assert (s + b)[0] == s[0] && (s + b)[1..] == s[1..] + b;
      TrimStartKeeps(s[1..], b);
      assert AllWhitespace(s[1..]) && IsWhitespace(s[0]) ==> AllWhitespace(s) by {
        assert forall i :: 1 <= i < |s| ==> s[i] == s[1..][i - 1];
      }
    }
  }

  /** White space at the ends does not matter to trimming. */
  lemma TrimPadded(a: string, s: string, b: string)
    requires AllWhitespace(a) && AllWhitespace(b)
    ensures Trim(a + s + b) == Trim(s)
  {
    hide AllWhitespace;
    assert a + s + b == a + (s + b);
    TrimStartPadded(a, s + b);
    TrimStartKeeps(s, b);
    if TrimStart(s) != "" {
      TrimEndPadded(TrimStart(s), b);
    } else {
      TrimStartPadded(s, b);
      TrimStartOfAll(b);
    }
  }

  /** The length of the leading run of characters that are not white space. */
  function WordLength(s: string): (n: nat)
    ensures n <= |s|
  {
    if s == "" || IsWhitespace(s[0]) then 0 else 1 + WordLength(s[1..])
  }

  /** The maximal runs of characters that are not white space. */
  function SplitWhitespace(s: string): seq<string>
    decreases |s|
  {
    if s == "" then []
    else if IsWhitespace(s[0]) then SplitWhitespace(s[1..])
    else var n := WordLength(s); [s[..n]] + SplitWhitespace(s[n..])
  }

  ghost predicate IsWord(w: string) {
    w != "" && forall i :: 0 <= i < |w| ==> !IsWhitespace(w[i])
  }

  lemma {:induction false} WordLengthOf(w: string, rest: string)
    requires forall i :: 0 <= i < |w| ==> !IsWhitespace(w[i])
    requires rest == "" || IsWhitespace(rest[0])
    ensures WordLength(w + rest) == |w|
  {
    if w == "" {
      assert w + rest == rest;
    } else {
      assert (w + rest)[1..] == w[1..] + rest;
      WordLengthOf(w[1..], rest);
    }
  }

  lemma SplitWord(w: string, rest: string)
    requires IsWord(w)
    requires rest == "" || IsWhitespace(rest[0])
    ensures SplitWhitespace(w + rest) == [w] + SplitWhitespace(rest)
  {
    WordLengthOf(w, rest);
    assert (w + rest)[..|w|] == w && (w + rest)[|w|..] == rest;
  }

  lemma SplitWordSpace(w: string, rest: string)
    requires IsWord(w)
    ensures SplitWhitespace(w + " " + rest) == [w] + SplitWhitespace(rest)
  {
    SplitWord(w, " " + rest);
    assert w + " " + rest == w + (" " + rest);
    assert (" " + rest)[1..] == rest;
  }

  // ---- Decimal numbers ----

  predicate IsDigit(c: char) {
    '0' <= c <= '9'
  }

  predicate AllDigits(s: string) {
    forall i :: 0 <= i < |s| ==> IsDigit(s[i])
  }

  function DigitsValue(s: string): nat
    requires AllDigits(s)
  {
    if s == "" then 0
    else assert IsDigit(s[|s| - 1]); DigitsValue(s[..|s| - 1]) * 10 + (s[|s| - 1] as int - '0' as int)
  }

  /** `str::parse` for an unsigned type whose largest value is `max`: an optional plus sign and then
      at least one digit. A value over `max` is an error. */
  function ParseUnsigned(s: string, max: nat): Option<nat> {
    var digits := if s != "" && s[0] == '+' then s[1..] else s;
    if digits == "" || !AllDigits(digits) then None
    else if DigitsValue(digits) > max then None
    else Some(DigitsValue(digits))
  }

  function DigitChar(d: nat): char
    requires d < 10
  {
    '0' + d as char
  }

  function Decimal(n: nat): (s: string)
    ensures s != "" && AllDigits(s)
  {
    if n < 10 then [DigitChar(n)] else Decimal(n / 10) + [DigitChar(n % 10)]
  }

  function Zeros(k: nat): (s: string)
    ensures |s| == k && forall i :: 0 <= i < k ==> s[i] == '0'
  {
    seq(k, _ => '0')
  }

  /** `{:0width}` for a value that is not negative. */
  function Padded(n: nat, width: nat): (s: string)
    ensures s != "" && AllDigits(s)
  {
    var s := Decimal(n);
    if |s| < width then Zeros(width - |s|) + s else s
  }

  lemma {:induction false} DecimalValue(n: nat)
    ensures DigitsValue(Decimal(n)) == n
  {
    if n >= 10 {
      DecimalValue(n / 10);
      var s := Decimal(n);
      assert s[..|s| - 1] == Decimal(n / 10);
    } else {
      assert Decimal(n)[..0] == "";
    }
  }

  /** There is no zero in front, except for zero itself. */
  lemma {:induction false} DecimalIsShortest(n: nat)
    ensures Decimal(n)[0] == '0' <==> n == 0
  {
    if 10 <= n {
      DecimalIsShortest(n / 10);
    }
  }

  lemma {:induction false} LeadingZeros(k: nat, s: string)
    requires AllDigits(s)
    ensures DigitsValue(Zeros(k) + s) == DigitsValue(s)
    decreases k + |s|
  {
    var t := Zeros(k) + s;
    if s != "" {
      assert t[..|t| - 1] == Zeros(k) + s[..|s| - 1];
      LeadingZeros(k, s[..|s| - 1]);
    } else if k > 0 {
      assert t[..|t| - 1] == Zeros(k - 1) + "";
      LeadingZeros(k - 1, "");
    } else {
      assert t == s;
    }
  }

  lemma ParseDigits(s: string, max: nat)
    requires s != "" && AllDigits(s)
    ensures ParseUnsigned(s, max) == if DigitsValue(s) <= max then Some(DigitsValue(s)) else None
  {
    assert IsDigit(s[0]);
  }

  /** Reading back a printed number gives the number, padded or not, exactly when it fits. */
  lemma ParsePadded(n: nat, width: nat, max: nat)
    ensures ParseUnsigned(Padded(n, width), max) == if n <= max then Some(n) else None
  {
    DecimalValue(n);
    var s := Decimal(n);
    if |s| < width {
      LeadingZeros(width - |s|, s);
    }
    ParseDigits(Padded(n, width), max);
  }

  lemma ParseDecimal(n: nat, max: nat)
    ensures ParseUnsigned(Decimal(n), max) == if n <= max then Some(n) else None
  {
    DecimalValue(n);
    ParseDigits(Decimal(n), max);
  }

  lemma DigitsAreWords(s: string)
    requires s != "" && AllDigits(s)
    ensures IsWord(s) && IsTrimmed(s)
  {
  }

  lemma NotInDigits(s: string, c: char)
    requires AllDigits(s) && !IsDigit(c)
    ensures c !in s
  {
  }

  lemma ParseNonDigit(s: string, i: nat, max: nat)
    requires i < |s| && s[0] != '+' && !IsDigit(s[i])
    ensures ParseUnsigned(s, max).None?
  {
    assert !AllDigits(s);
  }

  // ---- Hexadecimal numbers ----

  function HexChar(d: nat): char
    requires d < 16
  {
    if d < 10 then '0' + d as char else 'a' + (d - 10) as char
  }

  function HexDigit(c: char): nat {
    if '0' <= c <= '9' then c as int - '0' as int
    else if 'a' <= c <= 'f' then c as int - 'a' as int + 10
    else 0
  }

  predicate IsHex(c: char) {
    '0' <= c <= '9' || 'a' <= c <= 'f'
  }

  predicate AllHex(s: string) {
    forall i :: 0 <= i < |s| ==> IsHex(s[i])
  }

  /** `{:x}`. */
  function Hex(n: nat): (s: string)
    ensures s != "" && AllHex(s)
  {
    if n < 16 then [HexChar(n)] else Hex(n / 16) + [HexChar(n % 16)]
  }

  /** `{:0width x}`. */
  function PaddedHex(n: nat, width: nat): (s: string)
    ensures s != "" && AllHex(s) && width <= |s|
  {
    var s := Hex(n);
    if |s| < width then Zeros(width - |s|) + s else s
  }

  function HexValue(s: string): nat {
    if s == "" then 0 else HexValue(s[..|s| - 1]) * 16 + HexDigit(s[|s| - 1])
  }

  lemma {:induction false} HexValueOf(n: nat)
    ensures HexValue(Hex(n)) == n
  {
    if n >= 16 {
      HexValueOf(n / 16);
      var s := Hex(n);
      assert s[..|s| - 1] == Hex(n / 16);
    } else {
      assert Hex(n)[..0] == "";
    }
  }

  lemma {:induction false} HexIsShortest(n: nat)
    ensures Hex(n)[0] == '0' <==> n == 0
  {
    if 16 <= n {
      HexIsShortest(n / 16);
    }
  }

  lemma {:induction false} LeadingHexZeros(k: nat, s: string)
    ensures HexValue(Zeros(k) + s) == HexValue(s)
    decreases k + |s|
  {
    var t := Zeros(k) + s;
    if s != "" {
      assert t[..|t| - 1] == Zeros(k) + s[..|s| - 1];
      LeadingHexZeros(k, s[..|s| - 1]);
    } else if k > 0 {
      assert t[..|t| - 1] == Zeros(k - 1) + "";
      LeadingHexZeros(k - 1, "");
    } else {
      assert t == s;
    }
  }

  lemma PaddedHexValue(n: nat, width: nat)
    ensures HexValue(PaddedHex(n, width)) == n
  {
    HexValueOf(n);
    var s := Hex(n);
    if |s| < width {
      LeadingHexZeros(width - |s|, s);
    }
  }
}
