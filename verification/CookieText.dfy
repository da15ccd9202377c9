/**
  Reading and writing `Set-Cookie` values in `cookie.rs`. Keys are compared after lower-casing; the
  names compared with are ASCII and no other character lower-cases into them, so ASCII case is enough.
 */
module CookieText {
  import opened Wrappers
  import opened Text

  datatype SameSite = Strict | Lax | NoRestriction

  /** Max-Age is in nanoseconds; the expiry time is set when a cookie enters a jar. */
  datatype Cookie = Cookie(name: string, value: string, domain: Option<string>, path: Option<string>,
                           maxAge: Option<nat>, secure: bool, httpOnly: bool, sameSite: Option<SameSite>,
                           expiresAt: Option<int>)

  const NANOS: nat := 1_000_000_000
  const U64_MAX: nat := 0xFFFF_FFFF_FFFF_FFFF

  function NewCookie(name: string, value: string): Cookie {
    Cookie(name, value, None, None, None, false, false, None, None)
  }

  // ---- Parsing ----

  function ParseSameSite(s: string): Option<SameSite> {
    match Lower(s)
    case "strict" => Some(Strict)
    case "lax" => Some(Lax)
    case "none" => Some(NoRestriction)
    case _ => None
  }

  function ParseMaxAge(s: string): Option<nat> {
    var secs :- ParseUnsigned(s, U64_MAX);
    Some(secs * NANOS)
  }

  /** Section 5.2.2 of RFC 6265: a number of seconds, a negative one for a cookie that expires at once; anything
      else is ignored. */
  function StandardMaxAge(s: string): Option<nat> {
    if s != "" && AllDigits(s) then Some(DigitsValue(s) * NANOS)
    else if IsNegative(s) then Some(0)
    else None
  }

  predicate IsNegative(s: string) {
    2 <= |s| && s[0] == '-' && AllDigits(s[1..])
  }

  /** A Max-Age is read as the standard reads it exactly when it is not negative, has no plus sign in front of a
      number, and fits a `u64`. */
  lemma MaxAgeExactly(s: string)
    ensures ParseMaxAge(s) == StandardMaxAge(s)
       <==> && !IsNegative(s)
            && !(2 <= |s| && s[0] == '+' && AllDigits(s[1..]) && DigitsValue(s[1..]) <= U64_MAX)
            && !(s != "" && AllDigits(s) && DigitsValue(s) > U64_MAX)
  {
    hide DigitsValue;
    if s != "" && !IsDigit(s[0]) {
      assert !AllDigits(s);
    }
  }

  /** For instance, a cookie that should expire at once never does. */
  lemma NegativeMaxAge()
    ensures ParseMaxAge("-1") == None && StandardMaxAge("-1") == Some(0)
  {
    assert !IsDigit("-1"[0]) && !AllDigits("-1");
    assert "-1"[1..] == "1" && AllDigits("1");
  }

  function SetField(c: Cookie, key: string, val: string): Cookie {
    if key == "domain" then c.(domain := Some(val))
    else if key == "path" then c.(path := Some(val))
    else if key == "max-age" then c.(maxAge := ParseMaxAge(val))
    else if key == "samesite" then c.(sameSite := ParseSameSite(val))
    else c
  }

  function SetFlag(c: Cookie, key: string): Cookie {
    if key == "secure" then c.(secure := true)
    else if key == "httponly" then c.(httpOnly := true)
    else c
  }

  /** The effect of one attribute; unknown ones have none. */
  function Apply(c: Cookie, part: string): Cookie {
    var attr := Trim(part);
    match SplitOnce(attr, "=")
    case Some((k, v)) => SetField(c, Lower(Trim(k)), Trim(v))
    case None => SetFlag(c, Lower(attr))
  }

  function ApplyAll(c: Cookie, parts: seq<string>): Cookie
    decreases |parts|
  {
    if parts == [] then c else ApplyAll(Apply(c, parts[0]), parts[1..])
  }

  function Parsed(header: string): Option<Cookie> {
    var parts := Split(header, ';');
    var (n, v) :- SplitOnce(Trim(parts[0]), "=");
    var name, value := Trim(n), Trim(v);
    if name == "" then None else Some(ApplyAll(NewCookie(name, value), parts[1..]))
  }

  method ParseSetCookie(header: string) returns (r: Option<Cookie>)
    ensures r == Parsed(header)
  {
    hide Split, SplitOnce, Trim;
    var parts := Split(header, ';');
    var pair := SplitOnce(Trim(parts[0]), "=");
    if pair.None? {
      return None;
    }
    var name, value := Trim(pair.value.0), Trim(pair.value.1);
    if name == "" {
      return None;
    }
    var cookie := NewCookie(name, value);
    for i := 1 to |parts|
      invariant ApplyAll(cookie, parts[i..]) == ApplyAll(NewCookie(name, value), parts[1..])
    {
      assert parts[i..][1..] == parts[i + 1..];
      ghost var before := cookie;
      var attr := Trim(parts[i]);
      var field := SplitOnce(attr, "=");
      if field.Some? {
        var key, val := Lower(Trim(field.value.0)), Trim(field.value.1);
        if key == "domain" {
          cookie := cookie.(domain := Some(val));
        } else if key == "path" {
          cookie := cookie.(path := Some(val));
        } else if key == "max-age" {
          cookie := cookie.(maxAge := ParseMaxAge(val));
        } else if key == "samesite" {
          cookie := cookie.(sameSite := ParseSameSite(val));
        }
      } else {
        var key := Lower(attr);
        if key == "secure" {
          cookie := cookie.(secure := true);
        } else if key == "httponly" {
          cookie := cookie.(httpOnly := true);
        }
      }
      assert cookie == Apply(before, parts[i]);
    }
    assert parts[|parts|..] == [];
    return Some(cookie);
  }

  // ---- What a header says ----

  /** The value of an attribute if its name is `key` in lower case: the text behind its first equals sign. */
  function ValueOf(part: string, key: string): Option<string> {
    match SplitOnce(Trim(part), "=")
    case Some((k, v)) => if Lower(Trim(k)) == key then Some(Trim(v)) else None
    case None => None
  }

  /** The value of the last attribute of a name. */
  function LastValue(parts: seq<string>, key: string): Option<string> {
    if parts == [] then None
    else if ValueOf(parts[|parts| - 1], key).Some? then ValueOf(parts[|parts| - 1], key)
    else LastValue(parts[..|parts| - 1], key)
  }

  predicate HasFlag(parts: seq<string>, flag: string) {
    exists p :: p in parts && SplitOnce(Trim(p), "=").None? && Lower(Trim(p)) == flag
  }

  /** `d` is `c` with what the attributes say. */
  predicate Says(c: Cookie, d: Cookie, parts: seq<string>) {
    && d.name == c.name && d.value == c.value && d.expiresAt == c.expiresAt
    && d.domain == LastValue(parts, "domain")
    && d.path == LastValue(parts, "path")
    && (match LastValue(parts, "max-age")
        case None => d.maxAge == None
        case Some(v) => d.maxAge == match ParseUnsigned(v, 0xFFFF_FFFF_FFFF_FFFF)
                                    case Some(secs) => Some(secs * 1_000_000_000)
                                    case None => None)
    && (match LastValue(parts, "samesite")
        case None => d.sameSite == None
        case Some(v) => && (d.sameSite == Some(Strict) <==> Lower(v) == "strict")
                        && (d.sameSite == Some(Lax) <==> Lower(v) == "lax")
                        && (d.sameSite == Some(NoRestriction) <==> Lower(v) == "none"))
    && (d.secure <==> HasFlag(parts, "secure"))
    && (d.httpOnly <==> HasFlag(parts, "httponly"))
  }

  lemma {:induction false} ApplyLast(c: Cookie, parts: seq<string>, last: string)
    ensures ApplyAll(c, parts + [last]) == Apply(ApplyAll(c, parts), last)
    decreases |parts|
  {
    hide Apply;
    if parts == [] {
      assert [] + [last] == [last] && [last][1..] == [];
      assert ApplyAll(c, [last]) == ApplyAll(Apply(c, last), []);
    } else {
      assert (parts + [last])[1..] == parts[1..] + [last];
      ApplyLast(Apply(c, parts[0]), parts[1..], last);
    }
  }

  lemma LastValueStep(parts: seq<string>, last: string, key: string)
    ensures LastValue(parts + [last], key) ==
            if ValueOf(last, key).Some? then ValueOf(last, key) else LastValue(parts, key)
  {
    hide ValueOf;
    assert (parts + [last])[..|parts|] == parts;
  }

  lemma HasFlagStep(parts: seq<string>, last: string, flag: string)
    ensures HasFlag(parts + [last], flag) <==>
            HasFlag(parts, flag) || (SplitOnce(Trim(last), "=").None? && Lower(Trim(last)) == flag)
  {
    hide SplitOnce, Trim;
    assert forall p :: p in parts + [last] <==> p in parts || p == last;
  }

  lemma SaysMore(c: Cookie, d: Cookie, parts: seq<string>, last: string)
    requires Says(c, d, parts)
    ensures Says(c, Apply(d, last), parts + [last])
  {
    LastValueStep(parts, last, "domain");
    LastValueStep(parts, last, "path");
    LastValueStep(parts, last, "max-age");
    LastValueStep(parts, last, "samesite");
    HasFlagStep(parts, last, "secure");
    HasFlagStep(parts, last, "httponly");
    hide LastValue, HasFlag, SplitOnce, Trim, ParseUnsigned, Lower;
  }

  lemma {:induction false} SaysAll(name: string, value: string, parts: seq<string>)
    ensures Says(NewCookie(name, value), ApplyAll(NewCookie(name, value), parts), parts)
    decreases |parts|
  {
    if parts != [] {
      hide Says, Apply;
      var front, last := parts[..|parts| - 1], parts[|parts| - 1];
      SaysAll(name, value, front);
      SaysMore(NewCookie(name, value), ApplyAll(NewCookie(name, value), front), front, last);
      ApplyLast(NewCookie(name, value), front, last);
      assert parts == front + [last];
    }
  }

  /** What a header means: a name that is not empty and a value around the first equals sign before the first
      semicolon, and then for each attribute its last value, and the two flags wherever they stand. */
  lemma ParsedExactly(header: string)
    ensures var parts := Split(header, ';');
            match SplitOnce(Trim(parts[0]), "=")
            case None => Parsed(header) == None
            case Some((n, v)) =>
              if Trim(n) == "" then Parsed(header) == None
              else Parsed(header).Some? && Says(NewCookie(Trim(n), Trim(v)), Parsed(header).value, parts[1..])
  {
    hide Split, SplitOnce, Trim, Says;
    var parts := Split(header, ';');
    match SplitOnce(Trim(parts[0]), "=")
    case None =>
    case Some((n, v)) => SaysAll(Trim(n), Trim(v), parts[1..]);
  }

  // ---- Printing ----

  function SameSiteText(s: SameSite): string {
    match s
    case Strict => "Strict"
    case Lax => "Lax"
    case NoRestriction => "None"
  }

  /** The attributes that `Display` writes, in its order. */
  function Attributes(c: Cookie): seq<string> {
    DomainText(c) + PathText(c) + MaxAgeText(c) + SecureText(c) + HttpOnlyText(c) + SiteText(c)
  }

  function DomainText(c: Cookie): seq<string> {
    if c.domain.Some? then ["Domain=" + c.domain.value] else []
  }

  function PathText(c: Cookie): seq<string> {
    if c.path.Some? then ["Path=" + c.path.value] else []
  }

  function MaxAgeText(c: Cookie): seq<string> {
    if c.maxAge.Some? then ["Max-Age=" + Decimal(c.maxAge.value / NANOS)] else []
  }

  function SecureText(c: Cookie): seq<string> {
    if c.secure then ["Secure"] else []
  }

  function HttpOnlyText(c: Cookie): seq<string> {
    if c.httpOnly then ["HttpOnly"] else []
  }

  function SiteText(c: Cookie): seq<string> {
    if c.sameSite.Some? then ["SameSite=" + SameSiteText(c.sameSite.value)] else []
  }

  /** Each attribute after a semicolon and a space. */
  function Joined(attributes: seq<string>): string {
    if attributes == [] then "" else "; " + attributes[0] + Joined(attributes[1..])
  }

  function Display(c: Cookie): string {
    c.name + "=" + c.value + Joined(Attributes(c))
  }

  // ---- The round trip ----

  /** Nothing to trim and no separator. */
  predicate Clean(s: string) {
    IsTrimmed(s) && ';' !in s
  }

  /** The cookies that survive being printed and parsed. */
  predicate Printable(c: Cookie) {
    && Clean(c.name) && c.name != "" && '=' !in c.name
    && Clean(c.value)
    && (c.domain.Some? ==> Clean(c.domain.value))
    && (c.path.Some? ==> Clean(c.path.value))
    && (c.maxAge.Some? ==> c.maxAge.value % NANOS == 0 && c.maxAge.value / NANOS <= U64_MAX)
    && c.expiresAt.None?
  }

  lemma SetFieldKeepsPrintable(c: Cookie, key: string, val: string)
    requires Printable(c) && Clean(val)
    ensures Printable(SetField(c, key, val))
  {
    hide Clean;
    ParsedNumberFits(val);
    hide ParseMaxAge, ParseSameSite;
  }

  lemma ApplyKeepsPrintable(c: Cookie, part: string)
    requires Printable(c) && ';' !in part
    ensures Printable(Apply(c, part))
  {
    hide Trim, IsTrimmed, SplitOnce, SetField, Lower;
    TrimTrims(part);
    var attr := Trim(part);
    if SplitOnce(attr, "=").Some? {
      var (k, v) := SplitOnce(attr, "=").value;
      NameHasNoEquals(attr);
      TrimTrims(v);
      SetFieldKeepsPrintable(c, Lower(Trim(k)), Trim(v));
    }
  }

  lemma ParsedNumberFits(s: string)
    ensures ParseMaxAge(s).Some? ==> ParseMaxAge(s).value % NANOS == 0 && ParseMaxAge(s).value / NANOS <= U64_MAX
  {
  }

  lemma {:induction false} ApplyAllKeepsPrintable(c: Cookie, parts: seq<string>)
    requires Printable(c) && forall p :: p in parts ==> ';' !in p
    ensures Printable(ApplyAll(c, parts))
    decreases |parts|
  {
    hide Printable, Apply;
    if parts != [] {
      assert parts[0] in parts;
      ApplyKeepsPrintable(c, parts[0]);
      ApplyAllKeepsPrintable(Apply(c, parts[0]), parts[1..]);
    }
  }

  lemma NameHasNoEquals(s: string)
    requires SplitOnce(s, "=").Some?
    ensures '=' !in SplitOnce(s, "=").value.0
    ensures forall c :: c in SplitOnce(s, "=").value.0 || c in SplitOnce(s, "=").value.1 ==> c in s
  {
    var i := Find(s, "=").value;
    forall j | 0 <= j < i
      ensures s[..i][j] != '='
    {
      assert !OccursAt(s, "=", j);
      assert s[j..j + 1] == [s[j]];
    }
  }

  /** Whatever the header, a parsed cookie is printable. */
  lemma ParsedIsPrintable(header: string)
    requires Parsed(header).Some?
    ensures Printable(Parsed(header).value)
  {
    hide Trim, IsTrimmed, Split, SplitOnce;
    SplitPiecesAvoid(header, ';');
    var parts := Split(header, ';');
    assert parts[0] in parts;
    TrimTrims(parts[0]);
    var (n, v) := SplitOnce(Trim(parts[0]), "=").value;
    NameHasNoEquals(Trim(parts[0]));
    TrimTrims(n);
    TrimTrims(v);
    ApplyAllKeepsPrintable(NewCookie(Trim(n), Trim(v)), parts[1..]);
  }

  function Spaced(attributes: seq<string>): seq<string> {
    if attributes == [] then [] else [" " + attributes[0]] + Spaced(attributes[1..])
  }

  lemma {:induction false} SplitJoined(first: string, attributes: seq<string>)
    requires ';' !in first && forall a :: a in attributes ==> ';' !in a
    ensures Split(first + Joined(attributes), ';') == [first] + Spaced(attributes)
    decreases |attributes|
  {
    hide Split;
    if attributes == [] {
      assert first + "" == first;
      SplitOne(first, ';');
    } else {
      var a, rest := attributes[0], attributes[1..];
      assert a in attributes;
      assert ';' !in " " + a;
      SplitJoined(" " + a, rest);
      SplitCons(first, ';', " " + a + Joined(rest));
      JoinedCons(first, attributes);
    }
  }

  lemma JoinedCons(first: string, attributes: seq<string>)
    requires attributes != []
    ensures first + Joined(attributes) == first + ";" + (" " + attributes[0] + Joined(attributes[1..]))
  {
  }

  lemma TrimSpaced(a: string)
    requires IsTrimmed(a) && a != ""
    ensures Trim(" " + a) == a
  {
    assert (" " + a)[1..] == a;
    assert TrimStart(" " + a) == TrimStart(a) == a;
  }

  /** An attribute with a value sets its field. */
  lemma FieldApplies(c: Cookie, key: string, val: string)
    requires IsTrimmed(key) && key != "" && '=' !in key && IsTrimmed(val)
    ensures ApplyAll(c, Spaced([key + "=" + val])) == SetField(c, Lower(key), val)
  {
    hide Trim, SplitOnce, SetField, Lower;
    var a := key + "=" + val;
    assert a[0] == key[0] && a[|a| - 1] == if val == "" then '=' else val[|val| - 1];
    TrimSpaced(a);
    SplitOnceChar(key, '=', val);
    TrimTrims(key);
    TrimTrims(val);
    assert Apply(c, " " + a) == SetField(c, Lower(key), val);
    ApplyOne(c, a);
  }

  lemma LowerKeys()
    ensures Lower("Domain") == "domain" && Lower("Path") == "path" && Lower("Max-Age") == "max-age"
    ensures Lower("SameSite") == "samesite" && Lower("Secure") == "secure" && Lower("HttpOnly") == "httponly"
    ensures Lower("Strict") == "strict" && Lower("Lax") == "lax" && Lower("None") == "none"
  {
  }

  lemma NotASplit(s: string)
    requires '=' !in s
    ensures SplitOnce(s, "=").None?
  {
    NoOccurrence(s, '=');
  }

  lemma FlagApplies(c: Cookie, flag: string)
    requires flag == "Secure" || flag == "HttpOnly"
    ensures Apply(c, " " + flag) == if flag == "Secure" then c.(secure := true) else c.(httpOnly := true)
  {
    hide Trim, Lower, SplitOnce, Find;
    LowerKeys();
    TrimSpaced(flag);
    NotASplit(flag);
  }

  lemma {:induction false} ApplyAllJoin(c: Cookie, a: seq<string>, b: seq<string>)
    ensures ApplyAll(c, Spaced(a + b)) == ApplyAll(ApplyAll(c, Spaced(a)), Spaced(b))
    decreases |a|
  {
    hide Apply;
    if a == [] {
      assert a + b == b;
    } else {
      assert (a + b)[1..] == a[1..] + b;
      assert Spaced(a + b)[1..] == Spaced(a[1..] + b) && Spaced(a)[1..] == Spaced(a[1..]);
      ApplyAllJoin(Apply(c, " " + a[0]), a[1..], b);
    }
  }

  lemma ApplyOne(c: Cookie, a: string)
    ensures ApplyAll(c, Spaced([a])) == Apply(c, " " + a)
  {
    hide Apply;
    assert Spaced([a]) == [" " + a];
    assert ApplyAll(c, [" " + a]) == ApplyAll(Apply(c, " " + a), []);
  }

  lemma DomainApplies(c: Cookie, d: Cookie)
    requires Printable(c) && d.domain == None
    ensures ApplyAll(d, Spaced(DomainText(c))) == d.(domain := c.domain)
  {
    hide ApplyAll, Spaced, Lower;
    if c.domain.Some? {
      LowerKeys();
      assert "Domain" + "=" == "Domain=";
      FieldApplies(d, "Domain", c.domain.value);
    } else {
      ApplyNone(d);
    }
  }

  lemma ApplyNone(d: Cookie)
    ensures ApplyAll(d, Spaced([])) == d
  {
  }

  lemma PathApplies(c: Cookie, d: Cookie)
    requires Printable(c) && d.path == None
    ensures ApplyAll(d, Spaced(PathText(c))) == d.(path := c.path)
  {
    hide ApplyAll, Spaced, Lower;
    if c.path.Some? {
      LowerKeys();
      assert "Path" + "=" == "Path=";
      FieldApplies(d, "Path", c.path.value);
    } else {
      ApplyNone(d);
    }
  }

  lemma WholeSeconds(age: nat)
    requires age % NANOS == 0 && age / NANOS <= U64_MAX
    ensures ParseMaxAge(Decimal(age / NANOS)) == Some(age)
  {
    ParseDecimal(age / NANOS, U64_MAX);
  }

  lemma MaxAgeApplies(c: Cookie, d: Cookie)
    requires Printable(c) && d.maxAge == None
    ensures ApplyAll(d, Spaced(MaxAgeText(c))) == d.(maxAge := c.maxAge)
  {
    hide ApplyAll, Spaced, Lower, ParseMaxAge, Decimal;
    if c.maxAge.Some? {
      LowerKeys();
      DigitsAreWords(Decimal(c.maxAge.value / NANOS));
      assert "Max-Age" + "=" == "Max-Age=";
      FieldApplies(d, "Max-Age", Decimal(c.maxAge.value / NANOS));
      WholeSeconds(c.maxAge.value);
    } else {
      ApplyNone(d);
    }
  }

  lemma FlagsApply(c: Cookie, d: Cookie)
    requires !d.secure && !d.httpOnly
    ensures ApplyAll(d, Spaced(SecureText(c))) == d.(secure := c.secure)
    ensures ApplyAll(d, Spaced(HttpOnlyText(c))) == d.(httpOnly := c.httpOnly)
  {
    hide Apply;
    FlagApplies(d, "Secure");
    ApplyOne(d, "Secure");
    FlagApplies(d, "HttpOnly");
    ApplyOne(d, "HttpOnly");
  }

  lemma SiteApplies(c: Cookie, d: Cookie)
    requires d.sameSite == None
    ensures ApplyAll(d, Spaced(SiteText(c))) == d.(sameSite := c.sameSite)
  {
    hide ApplyAll, Spaced, Lower;
    if c.sameSite.Some? {
      LowerKeys();
      assert "SameSite" + "=" == "SameSite=";
      FieldApplies(d, "SameSite", SameSiteText(c.sameSite.value));
    } else {
      ApplyNone(d);
    }
  }

  lemma AttributesApply(c: Cookie)
    requires Printable(c)
    ensures ApplyAll(NewCookie(c.name, c.value), Spaced(Attributes(c))) == c
  {
    hide ApplyAll, Spaced, DomainText, PathText, MaxAgeText, SecureText, HttpOnlyText, SiteText, Printable;
    var start := NewCookie(c.name, c.value);
    var a, b := DomainText(c), PathText(c);
    ApplyAllJoin(start, a + b + MaxAgeText(c) + SecureText(c) + HttpOnlyText(c), SiteText(c));
    ApplyAllJoin(start, a + b + MaxAgeText(c) + SecureText(c), HttpOnlyText(c));
    ApplyAllJoin(start, a + b + MaxAgeText(c), SecureText(c));
    ApplyAllJoin(start, a + b, MaxAgeText(c));
    ApplyAllJoin(start, a, b);
    DomainApplies(c, start);
    var c1 := start.(domain := c.domain);
    PathApplies(c, c1);
    var c2 := c1.(path := c.path);
    MaxAgeApplies(c, c2);
    var c3 := c2.(maxAge := c.maxAge);
    FlagsApply(c, c3);
    var c4 := c3.(secure := c.secure);
    FlagsApply(c, c4.(secure := false));
    HttpOnlyAfterSecure(c, c4);
    SiteApplies(c, c4.(httpOnly := c.httpOnly));
    PrintableHasNoExpiry(c);
  }

  lemma PrintableHasNoExpiry(c: Cookie)
    requires Printable(c)
    ensures c.expiresAt.None?
  {
  }

  lemma HttpOnlyAfterSecure(c: Cookie, d: Cookie)
    requires !d.httpOnly
    ensures ApplyAll(d, Spaced(HttpOnlyText(c))) == d.(httpOnly := c.httpOnly)
  {
    hide Apply;
    FlagApplies(d, "HttpOnly");
    ApplyOne(d, "HttpOnly");
  }

  predicate AllClean(texts: seq<string>) {
    forall t :: t in texts ==> ';' !in t
  }

  lemma NoSemicolon(key: string, value: string)
    requires key in ["Domain=", "Path=", "Max-Age=", "SameSite="] && ';' !in value
    ensures AllClean([key + value])
  {
    assert ';' !in key;
  }

  lemma ValuesAreClean(c: Cookie)
    requires Printable(c)
    ensures AllClean(DomainText(c)) && AllClean(PathText(c)) && AllClean(MaxAgeText(c))
  {
    hide Decimal, IsTrimmed, AllClean;
    NothingIsClean();
    if c.domain.Some? {
      NoSemicolon("Domain=", c.domain.value);
    }
    if c.path.Some? {
      NoSemicolon("Path=", c.path.value);
    }
    if c.maxAge.Some? {
      NotInDigits(Decimal(c.maxAge.value / NANOS), ';');
      NoSemicolon("Max-Age=", Decimal(c.maxAge.value / NANOS));
    }
  }

  lemma NothingIsClean()
    ensures AllClean([])
  {
  }

  lemma FlagsAreClean(c: Cookie)
    ensures AllClean(SecureText(c)) && AllClean(HttpOnlyText(c)) && AllClean(SiteText(c))
  {
    if c.sameSite.Some? {
      NoSemicolon("SameSite=", SameSiteText(c.sameSite.value));
    }
  }

  lemma CleanJoin(a: seq<string>, b: seq<string>)
    requires AllClean(a) && AllClean(b)
    ensures AllClean(a + b)
  {
  }

  lemma AttributesAreClean(c: Cookie)
    requires Printable(c)
    ensures AllClean(Attributes(c))
  {
    ValuesAreClean(c);
    FlagsAreClean(c);
    hide AllClean, DomainText, PathText, MaxAgeText, SecureText, HttpOnlyText, SiteText;
    var values := DomainText(c) + PathText(c) + MaxAgeText(c);
    CleanJoin(DomainText(c), PathText(c));
    CleanJoin(DomainText(c) + PathText(c), MaxAgeText(c));
    CleanJoin(values, SecureText(c));
    CleanJoin(values + SecureText(c), HttpOnlyText(c));
    CleanJoin(values + SecureText(c) + HttpOnlyText(c), SiteText(c));
  }

  /** A cookie is recovered from its printed form exactly when it is printable. */
  lemma DisplayParseRoundTrip(c: Cookie)
    ensures Parsed(Display(c)) == Some(c) <==> Printable(c)
  {
    hide Split, SplitOnce, Trim, Attributes;
    if Printable(c) {
      var first := c.name + "=" + c.value;
      AttributesAreClean(c);
      SplitJoined(first, Attributes(c));
      FirstPair(c.name, c.value);
      AttributesApply(c);
      assert ([first] + Spaced(Attributes(c)))[1..] == Spaced(Attributes(c));
    } else if Parsed(Display(c)) == Some(c) {
      ParsedIsPrintable(Display(c));
    }
  }

  lemma FirstPair(name: string, value: string)
    requires Clean(name) && name != "" && '=' !in name && Clean(value)
    ensures var first := name + "=" + value;
            && Trim(first) == first && SplitOnce(first, "=") == Some((name, value))
            && Trim(name) == name && Trim(value) == value
  {
    var first := name + "=" + value;
    assert first[0] == name[0] && first[|first| - 1] == if value == "" then '=' else value[|value| - 1];
    TrimTrims(first);
    SplitOnceChar(name, '=', value);
    TrimTrims(name);
    TrimTrims(value);
  }
}
