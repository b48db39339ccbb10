/**
 * The string operations the account core relies on: JavaScript's `trim()`,
 * `toLowerCase()` and `toUpperCase()` restricted to a fixed whitespace set and
 * ASCII letters, e-mail normalisation, and the e-mail pattern
 * `^[^\s@]+@[^\s@]+\.[^\s@]+$` used by the controller, the service and the schema.
 */
module Text {

  /** The characters `\s` matches and `trim()` strips in this model. */
  const Whitespace: set<char> := {' ', '\t', '\n', '\r', '\U{B}', '\U{C}', '\U{A0}', '\U{FEFF}'}

  predicate IsSpace(c: char) { c in Whitespace }

  predicate AllSpace(s: string) { forall i | 0 <= i < |s| :: IsSpace(s[i]) }

  predicate NoSpace(s: string) { forall i | 0 <= i < |s| :: !IsSpace(s[i]) }

  /** Neither the first nor the last character is whitespace. */
  predicate IsTrimmed(s: string) { s == [] || (!IsSpace(s[0]) && !IsSpace(s[|s| - 1])) }

  /** Drops the leading whitespace. */
  function TrimStart(s: string): string
  {
    if s != [] && IsSpace(s[0]) then TrimStart(s[1..]) else s
  }

  /** Drops the trailing whitespace. */
  function TrimEnd(s: string): string
  {
    if s != [] && IsSpace(s[|s| - 1]) then TrimEnd(s[..|s| - 1]) else s
  }

  /** What `TrimStart` keeps is a suffix of `s` after a run of spaces, starting with a non-space. */
  lemma {:induction false} TrimStartSuffix(s: string)
    ensures var r := TrimStart(s);
      && |r| <= |s| && r == s[|s| - |r|..]
      && AllSpace(s[..|s| - |r|])
      && (r == [] || !IsSpace(r[0]))
  {
    if s != [] && IsSpace(s[0]) {
      var t := s[1..];
      TrimStartSuffix(t);
      var r := TrimStart(t);
      assert r == t[|t| - |r|..] == s[|s| - |r|..];
      var margin := s[..|s| - |r|];
      forall i | 0 <= i < |margin| ensures IsSpace(margin[i]) {
        if i > 0 { assert margin[i] == t[..|t| - |r|][i - 1]; }
      }
    }
  }

  /** What `TrimEnd` keeps is a prefix of `s` before a run of spaces, ending with a non-space. */
  lemma {:induction false} TrimEndPrefix(s: string)
    ensures var r := TrimEnd(s);
      && |r| <= |s| && r == s[..|r|]
      && AllSpace(s[|r|..])
      && (r == [] || !IsSpace(r[|r| - 1]))
  {
    if s != [] && IsSpace(s[|s| - 1]) {
      var t := s[..|s| - 1];
      TrimEndPrefix(t);
      var r := TrimEnd(t);
      assert r == t[..|r|] == s[..|r|];
      var margin := s[|r|..];
      forall i | 0 <= i < |margin| ensures IsSpace(margin[i]) {
        if i < |t| - |r| { assert margin[i] == t[|r|..][i]; }
      }
    }
  }

  /** `String.prototype.trim`. */
  function Trim(s: string): (r: string)
    ensures IsTrimmed(r)
    ensures |r| <= |s|
  {
    var t := TrimStart(s);
    var r := TrimEnd(t);
    TrimStartSuffix(s);
    TrimEndPrefix(t);
    assert r != [] ==> r[0] == t[0];
    r
  }

  /** Trim keeps one contiguous slice of `s` and removes only whitespace around it. */
  lemma TrimSlice(s: string) returns (i: nat, j: nat)
    ensures i <= j <= |s| && Trim(s) == s[i..j]
    ensures AllSpace(s[..i]) && AllSpace(s[j..])
  {
    var t := TrimStart(s);
    var r := TrimEnd(t);
    TrimStartSuffix(s);
    TrimEndPrefix(t);
    i, j := |s| - |t|, |s| - |t| + |r|;
    assert t == s[i..];
    assert r == t[..|r|] == s[i..j];
    assert s[j..] == t[|r|..];
  }

  /** A string that is already trimmed is left alone. */
  lemma {:induction false} TrimOfTrimmed(s: string)
    requires IsTrimmed(s)
    ensures Trim(s) == s
  {
    assert TrimStart(s) == s;
    assert TrimEnd(s) == s;
  }

  lemma TrimIdempotent(s: string)
    ensures Trim(Trim(s)) == Trim(s)
  {
    TrimOfTrimmed(Trim(s));
  }

  /** A string without whitespace is left alone. */
  lemma TrimOfNoSpace(s: string)
    requires NoSpace(s)
    ensures Trim(s) == s
  {
    TrimOfTrimmed(s);
  }

  /** Trimming yields the empty string exactly when `s` is all whitespace. */
  lemma TrimEmpty(s: string)
    ensures Trim(s) == [] <==> AllSpace(s)
  {
    var i, j := TrimSlice(s);
    if Trim(s) == [] {
      assert i == j;
      forall k | 0 <= k < |s| ensures IsSpace(s[k]) {
        if k < i { assert s[k] == s[..i][k]; } else { assert s[k] == s[j..][k - j]; }
      }
    } else {
      assert Trim(s)[0] == s[i] && !IsSpace(s[i]);
    }
  }

  /** ASCII lower-casing of one character. */
  function LowerChar(c: char): char
  {
    if 'A' <= c <= 'Z' then (c as int - 'A' as int + 'a' as int) as char else c
  }

  /** ASCII upper-casing of one character. */
  function UpperChar(c: char): char
  {
    if 'a' <= c <= 'z' then (c as int - 'a' as int + 'A' as int) as char else c
  }

  /** `String.prototype.toLowerCase` over ASCII letters. */
  function Lower(s: string): string
  {
    seq(|s|, i requires 0 <= i < |s| => LowerChar(s[i]))
  }

  /** `s.charAt(0).toUpperCase() + s.slice(1)`. */
  function Capitalize(s: string): string
  {
    if s == [] then [] else [UpperChar(s[0])] + s[1..]
  }

  /** The leading whitespace of `a + b` is that of `a` when `b` starts with a non-space. */
  lemma {:induction false} TrimStartAppend(a: string, b: string)
    requires b != [] && !IsSpace(b[0])
    ensures TrimStart(a + b) == TrimStart(a) + b
  {
    if a == [] {
      assert a + b == b;
    } else if IsSpace(a[0]) {
      assert (a + b)[1..] == a[1..] + b;
      TrimStartAppend(a[1..], b);
    }
  }

  /** Trimming `a + b`, where `b` starts and ends with a non-space, strips only the leading whitespace of `a`. */
  lemma TrimAppend(a: string, b: string)
    requires b != [] && !IsSpace(b[0]) && !IsSpace(b[|b| - 1])
    ensures Trim(a + b) == TrimStart(a) + b
  {
    TrimStartAppend(a, b);
    var t := TrimStart(a) + b;
    assert t[|t| - 1] == b[|b| - 1];
  }

  /** `email.toLowerCase().trim()`: the form in which e-mails are stored and compared. */
  function NormalizeEmail(e: string): string
  {
    Trim(Lower(e))
  }

  /** Lower-casing never turns whitespace into non-whitespace or the reverse. */
  lemma LowerCharKeepsClass(c: char)
    ensures IsSpace(LowerChar(c)) == IsSpace(c)
    ensures (LowerChar(c) == '@') == (c == '@')
    ensures (LowerChar(c) == '.') == (c == '.')
    ensures LowerChar(LowerChar(c)) == LowerChar(c)
  {
  }

  /** Upper-casing never turns whitespace or `@` into something else, or the reverse. */
  lemma UpperCharKeepsClass(c: char)
    ensures IsSpace(UpperChar(c)) == IsSpace(c)
    ensures (UpperChar(c) == '@') == (c == '@')
  {
  }

  /** Capitalising keeps the length, and whitespace and `@` where they were. */
  lemma CapitalizeKeepsClass(s: string)
    ensures |Capitalize(s)| == |s|
    ensures NoSpace(Capitalize(s)) <==> NoSpace(s)
    ensures EmailChars(Capitalize(s)) <==> EmailChars(s)
  {
    var c := Capitalize(s);
    forall i | 0 <= i < |s| ensures IsSpace(c[i]) == IsSpace(s[i]) && (c[i] == '@') == (s[i] == '@') {
      if i == 0 { UpperCharKeepsClass(s[0]); } else { assert c[i] == s[1..][i - 1]; }
    }
  }

  /** Lower-casing keeps whitespace and `@` where they were. */
  lemma LowerKeepsClass(s: string)
    ensures NoSpace(Lower(s)) <==> NoSpace(s)
    ensures EmailChars(Lower(s)) <==> EmailChars(s)
  {
    forall i | 0 <= i < |s| ensures IsSpace(Lower(s)[i]) == IsSpace(s[i]) && (Lower(s)[i] == '@') == (s[i] == '@') {
      LowerCharKeepsClass(s[i]);
    }
  }

  lemma LowerAppend(a: string, b: string)
    ensures Lower(a + b) == Lower(a) + Lower(b)
  {
  }

  lemma LowerIdempotent(s: string)
    ensures Lower(Lower(s)) == Lower(s)
  {
  }

  /** Lower-casing commutes with stripping leading whitespace. */
  lemma {:induction false} LowerTrimStart(s: string)
    ensures TrimStart(Lower(s)) == Lower(TrimStart(s))
  {
    if s != [] {
      LowerCharKeepsClass(s[0]);
      assert Lower(s)[1..] == Lower(s[1..]);
      if IsSpace(s[0]) {
        LowerTrimStart(s[1..]);
      }
    }
  }

  /** Lower-casing commutes with stripping trailing whitespace. */
  lemma {:induction false} LowerTrimEnd(s: string)
    ensures TrimEnd(Lower(s)) == Lower(TrimEnd(s))
  {
    if s != [] {
      LowerCharKeepsClass(s[|s| - 1]);
      assert Lower(s)[..|s| - 1] == Lower(s[..|s| - 1]);
      if IsSpace(s[|s| - 1]) {
        LowerTrimEnd(s[..|s| - 1]);
      }
    }
  }

  lemma LowerTrim(s: string)
    ensures Trim(Lower(s)) == Lower(Trim(s))
  {
    LowerTrimStart(s);
    LowerTrimEnd(TrimStart(s));
  }

  /** Trimming before normalising changes nothing. */
  lemma NormalizeTrimmed(e: string)
    ensures NormalizeEmail(Trim(e)) == NormalizeEmail(e)
  {
    LowerTrim(e);
    TrimIdempotent(Lower(e));
  }

  /** Normalising an e-mail twice is the same as normalising it once. */
  lemma NormalizeEmailIdempotent(e: string)
    ensures NormalizeEmail(NormalizeEmail(e)) == NormalizeEmail(e)
  {
    LowerTrim(Lower(e));
    LowerIdempotent(e);
    LowerIdempotent(Trim(Lower(e)));
    TrimIdempotent(Lower(e));
    LowerTrim(e);
  }

  // ---------------------------------------------------------------------------
  // The e-mail pattern ^[^\s@]+@[^\s@]+\.[^\s@]+$

  /** `[^\s@]`: any character except whitespace and `@`. */
  predicate IsEmailChar(c: char) { !IsSpace(c) && c != '@' }

  predicate EmailChars(s: string) { forall i | 0 <= i < |s| :: IsEmailChar(s[i]) }

  /** `[^\s@]+\.[^\s@]+`: no whitespace or `@`, and a `.` that is neither first nor last. */
  predicate IsEmailDomain(d: string)
  {
    EmailChars(d) && exists k | 0 < k < |d| - 1 :: d[k] == '.'
  }

  /** The e-mail pattern as a decision procedure: a non-empty local part, one `@`, a domain. */
  predicate IsEmail(s: string)
  {
    exists k | 0 < k < |s| :: s[k] == '@' && EmailChars(s[..k]) && IsEmailDomain(s[k + 1..])
  }

  /** The e-mail pattern read literally: three non-empty `[^\s@]+` runs joined by `@` and `.`. */
  ghost predicate MatchesEmailRegex(s: string)
  {
    exists local: string, host: string, tld: string :: RegexSplit(s, local, host, tld)
  }

  /** `s` is `local@host.tld` with each part a non-empty run of `[^\s@]`. */
  ghost predicate RegexSplit(s: string, local: string, host: string, tld: string)
  {
    && s == local + "@" + host + "." + tld
    && |local| > 0 && |host| > 0 && |tld| > 0
    && EmailChars(local) && EmailChars(host) && EmailChars(tld)
  }

  /** Cutting `s` around its `@` at `k` and a `.` at `j` of the rest gives back `s`. */
  lemma CutAround(s: string, k: nat, j: nat)
    requires k < |s| && s[k] == '@' && j < |s[k + 1..]| && s[k + 1..][j] == '.'
    ensures s == s[..k] + "@" + s[k + 1..][..j] + "." + s[k + 1..][j + 1..]
  {
    var d := s[k + 1..];
    assert s == s[..k] + "@" + d;
    assert d == d[..j] + "." + d[j + 1..];
  }

  /** A slice of a run of `[^\s@]` is such a run. */
  lemma EmailCharsSlice(x: string, i: nat, j: nat)
    requires EmailChars(x) && i <= j <= |x|
    ensures EmailChars(x[i..j])
  {
    forall l | 0 <= l < j - i ensures IsEmailChar(x[i..j][l]) { assert x[i..j][l] == x[i + l]; }
  }

  /** Every string the decision procedure accepts matches the regular expression. */
  lemma EmailToRegex(s: string)
    requires IsEmail(s)
    ensures MatchesEmailRegex(s)
  {
    var k :| 0 < k < |s| && s[k] == '@' && EmailChars(s[..k]) && IsEmailDomain(s[k + 1..]);
    var d := s[k + 1..];
    var j :| 0 < j < |d| - 1 && d[j] == '.';
    var local, host, tld := s[..k], d[..j], d[j + 1..];
    assert s == local + "@" + host + "." + tld by {
      CutAround(s, k, j);
    }
    assert EmailChars(host) && EmailChars(tld) by {
      EmailCharsSlice(d, 0, j);
      EmailCharsSlice(d, j + 1, |d|);
      assert d[0..j] == host && d[j + 1..|d|] == tld;
    }
    assert RegexSplit(s, local, host, tld);
  }

  /** Every string the regular expression matches is accepted by the decision procedure. */
  lemma RegexToEmail(s: string, local: string, host: string, tld: string)
    requires RegexSplit(s, local, host, tld)
    ensures IsEmail(s)
  {
    var k := |local|;
    var d := host + "." + tld;
    assert s == local + "@" + d;
    assert s[..k] == local;
    assert s[k + 1..] == d;
    assert d[|host|] == '.';
    forall i | 0 <= i < |d| ensures IsEmailChar(d[i]) {
      if i < |host| { assert d[i] == host[i]; }
      else if i > |host| { assert d[i] == tld[i - |host| - 1]; }
    }
    assert s[k] == '@';
  }

  /** The decision procedure accepts exactly the strings the regular expression matches. */
  lemma EmailMatchesRegex(s: string)
    ensures IsEmail(s) <==> MatchesEmailRegex(s)
  {
    if IsEmail(s) {
      EmailToRegex(s);
    }
    if MatchesEmailRegex(s) {
      var local: string, host: string, tld: string :| RegexSplit(s, local, host, tld);
      RegexToEmail(s, local, host, tld);
    }
  }

  /** Every character of an e-mail is a non-space, so trimming leaves it unchanged. */
  lemma EmailHasNoSpace(s: string)
    requires IsEmail(s)
    ensures NoSpace(s)
    ensures Trim(s) == s
  {
    var k :| 0 < k < |s| && s[k] == '@' && EmailChars(s[..k]) && IsEmailDomain(s[k + 1..]);
    forall i | 0 <= i < |s| ensures !IsSpace(s[i]) {
      if i < k { assert s[i] == s[..k][i]; }
      else if i > k { assert s[i] == s[k + 1..][i - k - 1]; }
    }
    TrimOfNoSpace(s);
  }

  /** Lower-casing an e-mail keeps it an e-mail. */
  lemma LowerKeepsEmail(s: string)
    requires IsEmail(s)
    ensures IsEmail(Lower(s))
  {
    var k :| 0 < k < |s| && s[k] == '@' && EmailChars(s[..k]) && IsEmailDomain(s[k + 1..]);
    var d := s[k + 1..];
    var j :| 0 < j < |d| - 1 && d[j] == '.';
    var t := Lower(s);
    assert t[..k] == Lower(s[..k]);
    assert t[k + 1..] == Lower(d);
    LowerKeepsClass(s[..k]);
    LowerKeepsClass(d);
    LowerCharKeepsClass(s[k]);
    LowerCharKeepsClass(d[j]);
    assert Lower(d)[j] == '.';
    assert t[k] == '@';
    assert IsEmailDomain(t[k + 1..]);
  }

  /** A valid e-mail is already in normalised form once lower-cased. */
  lemma NormalizedEmailOfEmail(s: string)
    requires IsEmail(s)
    ensures IsEmail(NormalizeEmail(s))
    ensures NormalizeEmail(s) == Lower(s)
  {
    LowerKeepsEmail(s);
    EmailHasNoSpace(Lower(s));
  }

  /** `x + "@" + domain` is an e-mail exactly when `x` is a non-empty run of `[^\s@]`. */
  lemma EmailWithDomain(x: string, domain: string)
    requires IsEmailDomain(domain)
    ensures IsEmail(x + "@" + domain) <==> |x| > 0 && EmailChars(x)
  {
    if IsEmail(x + "@" + domain) {
      EmailWithDomainLocal(x, domain);
    }
    if |x| > 0 && EmailChars(x) {
      var s := x + "@" + domain;
      assert s[..|x|] == x && s[|x| + 1..] == domain && s[|x|] == '@';
    }
  }

  /** In an e-mail `x + "@" + domain` whose domain has no `@`, the `@` is the one after `x`. */
  lemma EmailWithDomainLocal(x: string, domain: string)
    requires EmailChars(domain) && IsEmail(x + "@" + domain)
    ensures |x| > 0 && EmailChars(x)
  {
    var s := x + "@" + domain;
    var k :| 0 < k < |s| && s[k] == '@' && EmailChars(s[..k]) && IsEmailDomain(s[k + 1..]);
    assert k == |x| by {
      assert s[|x|] == '@';
      forall i | 0 <= i < |s| && i != k ensures s[i] != '@' {
        if i < k { assert s[i] == s[..k][i]; } else { assert s[i] == s[k + 1..][i - k - 1]; }
      }
    }
    assert s[..k] == x;
  }
}
