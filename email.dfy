/**
 * The contact form's e-mail check, `isValidEmail`, which tests its argument
 * against the pattern `^[^\s@]+@[^\s@]+\.[^\s@]+$`. The check is written
 * here by hand: find the first `@`, then look at what comes before and after
 * it. `MatchesPattern` is the pattern read literally (some split of the
 * string into three runs joined by `@` and `.`), and `ValidEmailIff` proves
 * that the two agree on every string.
 */
module Email {
  import opened JsText

  /** A character of the class `[^\s@]`. */
  predicate IsAtom(c: char) {
    c != '@' && !IsWhitespace(c)
  }

  /** Every character of `s` is in `[^\s@]`. */
  predicate AllAtoms(s: string) {
    forall k :: 0 <= k < |s| ==> IsAtom(s[k])
  }

  /** Index of the first `@` in `s`, or `|s|` when there is none. */
  function FirstAt(s: string): (r: nat)
    ensures r <= |s|
    ensures r < |s| ==> s[r] == '@'
    ensures forall k :: 0 <= k < r ==> s[k] != '@'
  {
    if s == [] || s[0] == '@' then 0 else 1 + FirstAt(s[1..])
  }

  /** The part after the `@`: `[^\s@]+\.[^\s@]+`, i.e. atoms only, with a dot that is neither first nor last. */
  predicate IsDomain(d: string) {
    AllAtoms(d) && |d| >= 3 && '.' in d[1..|d| - 1]
  }

  /**
   * `isValidEmail(email)` (script.js:497-500). An address it accepts has a
   * non-empty local part before its first `@`, a domain after it, and no
   * whitespace anywhere.
   */
  function IsValidEmail(email: string): (ok: bool)
    ensures ok ==> 0 < FirstAt(email) < |email| - 3
    ensures ok ==> forall k :: 0 <= k < |email| ==> !IsWhitespace(email[k])
  {
    var at := FirstAt(email);
    var ok := 0 < at < |email| && AllAtoms(email[..at]) && IsDomain(email[at + 1..]);
    assert ok ==> forall k :: 0 <= k < |email| ==> !IsWhitespace(email[k]) by {
      if ok {
        forall k | 0 <= k < |email| ensures !IsWhitespace(email[k]) {
          if k < at { assert email[k] == email[..at][k]; }
          else if k > at { assert email[k] == email[at + 1..][k - at - 1]; }
        }
      }
    }
    ok
  }

  /** `s` reads as `L @ D1 . D2` with the `@` at index `i` and the `.` at index `j`. */
  ghost predicate SplitsAt(s: string, i: int, j: int) {
    0 < i && i + 1 < j && j + 1 < |s| &&
    s[i] == '@' && s[j] == '.' &&
    AllAtoms(s[..i]) && AllAtoms(s[i + 1..j]) && AllAtoms(s[j + 1..])
  }

  /** The regular expression read literally: some split of `s` fits it. */
  ghost predicate MatchesPattern(s: string) {
    exists i, j :: SplitsAt(s, i, j)
  }

  lemma AllAtomsJoin(a: string, b: string)
    requires AllAtoms(a) && AllAtoms(b)
    ensures AllAtoms(a + b)
  {
    assert forall k :: 0 <= k < |a + b| ==> (a + b)[k] == if k < |a| then a[k] else b[k - |a|];
  }

  /** A string that passes splits as the pattern demands, at the first `@`. */
  lemma ValidSplits(s: string) returns (i: int, j: int)
    requires IsValidEmail(s)
    ensures SplitsAt(s, i, j) && i == FirstAt(s)
  {
    i := FirstAt(s);
    var d := s[i + 1..];
    var inner := d[1..|d| - 1];
    var m :| 0 <= m < |inner| && inner[m] == '.';
    j := i + 2 + m;
    assert s[j] == '.' by { assert s[j] == d[m + 1] == inner[m]; }
    assert s[i + 1..j] == d[..m + 1];
    assert s[j + 1..] == d[m + 2..];
  }

  /** A split the pattern accepts puts its `@` at the first `@`, and the check passes. */
  lemma SplitIsValid(s: string, i: int, j: int)
    requires SplitsAt(s, i, j)
    ensures IsValidEmail(s)
  {
    assert FirstAt(s) == i by {
      assert forall k :: 0 <= k < i ==> s[k] == s[..i][k];
    }
    var d := s[i + 1..];
    assert d == s[i + 1..j] + ['.'] + s[j + 1..];
    AllAtomsJoin(s[i + 1..j], ['.']);
    AllAtomsJoin(s[i + 1..j] + ['.'], s[j + 1..]);
    assert d[1..|d| - 1][j - i - 2] == '.';
  }

  /** The hand-written check accepts exactly the strings the pattern matches. */
  lemma ValidEmailIff(s: string)
    ensures IsValidEmail(s) <==> MatchesPattern(s)
  {
    if IsValidEmail(s) {
      var i, j := ValidSplits(s);
    }
    if MatchesPattern(s) {
      var i, j :| SplitsAt(s, i, j);
      SplitIsValid(s, i, j);
    }
  }

  /** Building an address from three non-empty runs of `[^\s@]` always passes. */
  lemma ComposedIsValid(local: string, host: string, tld: string)
    requires |local| > 0 && |host| > 0 && |tld| > 0
    requires AllAtoms(local) && AllAtoms(host) && AllAtoms(tld)
    ensures IsValidEmail(local + "@" + host + "." + tld)
  {
    var s := local + "@" + host + "." + tld;
    var i, j := |local|, |local| + 1 + |host|;
    assert s[..i] == local;
    assert s[i + 1..j] == host;
    assert s[j + 1..] == tld;
    SplitIsValid(s, i, j);
  }

  /** Every address that passes is three non-empty runs of `[^\s@]` joined by `@` and `.`. */
  lemma ValidIsComposed(s: string) returns (local: string, host: string, tld: string)
    requires IsValidEmail(s)
    ensures |local| > 0 && |host| > 0 && |tld| > 0
    ensures AllAtoms(local) && AllAtoms(host) && AllAtoms(tld)
    ensures s == local + "@" + host + "." + tld
  {
    var i, j := ValidSplits(s);
    local, host, tld := s[..i], s[i + 1..j], s[j + 1..];
    assert s == s[..i] + [s[i]] + s[i + 1..j] + [s[j]] + s[j + 1..];
  }

  /** An address that passes holds exactly one `@` and no whitespace at all. */
  lemma ValidHasOneAtNoWhitespace(s: string)
    requires IsValidEmail(s)
    ensures multiset(s)['@'] == 1
    ensures forall k :: 0 <= k < |s| ==> !IsWhitespace(s[k])
  {
    var local, host, tld := ValidIsComposed(s);
    assert '@' !in local && '@' !in host && '@' !in tld by {
      assert forall k :: 0 <= k < |local| ==> local[k] != '@';
      assert forall k :: 0 <= k < |host| ==> host[k] != '@';
      assert forall k :: 0 <= k < |tld| ==> tld[k] != '@';
    }
    assert multiset(s) == multiset(local) + multiset{'@'} + multiset(host) + multiset{'.'} + multiset(tld);
    forall k | 0 <= k < |s| ensures !IsWhitespace(s[k]) {
      if k < |local| { assert s[k] == local[k]; }
      else if k == |local| { assert s[k] == '@'; }
      else if k < |local| + 1 + |host| { assert s[k] == host[k - |local| - 1]; }
      else if k == |local| + 1 + |host| { assert s[k] == '.'; }
      else { assert s[k] == tld[k - |local| - 2 - |host|]; }
    }
  }

  /**
   * A passing string has at least five characters (`x@y.z`), so in
   * particular the empty string never passes.
   */
  lemma ValidHasFiveChars(s: string)
    requires IsValidEmail(s)
    ensures |s| >= 5
  {
    var local, host, tld := ValidIsComposed(s);
  }

  /** The accepted example address. */
  lemma AcceptsExample()
    ensures IsValidEmail("a@b.co")
  {
    assert FirstAt("a@b.co") == 1;
    assert "a@b.co"[2..][1..3] == ".c";
  }

  /** The rejected examples: no dot after the `@`, no `@`, an empty local part, an empty host. */
  lemma RejectsExamples()
    ensures !IsValidEmail("a@b")
    ensures !IsValidEmail("ab.com")
    ensures !IsValidEmail("@b.co")
    ensures !IsValidEmail("a@.co")
  {
    assert !IsValidEmail("a@b") by {
      assert FirstAt("a@b") == 1;
    }
    assert !IsValidEmail("ab.com") by {
      assert FirstAt("ab.com") == 6 by {
        assert FirstAt("ab.com"[1..]) == 5;
      }
    }
    assert !IsValidEmail("@b.co") by {
      assert FirstAt("@b.co") == 0;
    }
    assert !IsValidEmail("a@.co") by {
      assert FirstAt("a@.co") == 1;
      assert "a@.co"[2..][1..2] == "c";
    }
  }

  /**
   * Any string with no `@`, a second `@`, or a whitespace character anywhere
   * fails the check.
   */
  lemma RejectsExtraAtOrWhitespace(s: string)
    requires multiset(s)['@'] != 1 || exists k :: 0 <= k < |s| && IsWhitespace(s[k])
    ensures !IsValidEmail(s)
  {
    if IsValidEmail(s) {
      ValidHasOneAtNoWhitespace(s);
    }
  }

  /** Three rejected strings: "a@b@c.d" (second `@`), "a b@c.d" (space in the local part), "a@b.c " (trailing space). */
  lemma RejectsSecondAtAndSpaces()
    ensures !IsValidEmail("a@b@c.d")
    ensures !IsValidEmail("a b@c.d")
    ensures !IsValidEmail("a@b.c ")
  {
    assert FirstAt("a@b@c.d") == 1;
    assert !IsAtom("a@b@c.d"[2..][1]);
    assert FirstAt("a b@c.d") == 3 by {
      assert FirstAt("a b@c.d"[1..]) == 2;
    }
    assert !IsAtom("a b@c.d"[..3][1]);
    assert FirstAt("a@b.c ") == 1;
    assert !IsAtom("a@b.c "[2..][3]);
  }
}
