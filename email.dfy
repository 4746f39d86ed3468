/**
 * The e-mail check of the registration form: `re.match` with the pattern
 * `^[\w\.-]+@(?:gmail|hotmail|outlook|yahoo)\.com$`, written out by hand.
 *
 * Python's `$` (without MULTILINE) matches at the end of the string and also
 * just before a newline that is the last character, so the accepted strings
 * are `local@host` and `local@host` followed by one "\n".
 */
module Email {

  /** `\w`, restricted to ASCII: letters, digits and the underscore. */
  predicate IsWordChar(c: char) {
    ('a' <= c <= 'z') || ('A' <= c <= 'Z') || ('0' <= c <= '9') || c == '_'
  }

  /** The character class `[\w\.-]` of the local part. */
  predicate IsLocalChar(c: char) {
    IsWordChar(c) || c == '.' || c == '-'
  }

  /** The domain alternatives `gmail|hotmail|outlook|yahoo`. */
  predicate IsAllowedDomain(d: string) {
    d == "gmail" || d == "hotmail" || d == "outlook" || d == "yahoo"
  }

  /** `(?:gmail|hotmail|outlook|yahoo)\.com`. */
  predicate IsAllowedHost(h: string) {
    |h| >= 4 && IsAllowedDomain(h[..|h| - 4]) && h[|h| - 4..] == ".com"
  }

  /** The pattern between `^` and `$` matches `t` with its `@` at index `k`:
      a non-empty local part over `[\w\.-]` before it, an allowed host after. */
  ghost predicate AddressAt(t: string, k: int) {
    && 0 < k < |t| && t[k] == '@'
    && (forall i :: 0 <= i < k ==> IsLocalChar(t[i]))
    && IsAllowedHost(t[k + 1..])
  }

  /** Reference meaning of the pattern between `^` and `$`. */
  ghost predicate IsAddress(t: string) {
    exists k :: AddressAt(t, k)
  }

  /** Reference meaning of the whole `re.match`: an address, or an address
      followed by exactly one trailing newline. */
  ghost predicate Matches(s: string) {
    IsAddress(s) || (|s| > 0 && s[|s| - 1] == '\n' && IsAddress(s[..|s| - 1]))
  }

  /** The length of the longest prefix of `s` in `[\w\.-]`: what the greedy
      `[\w\.-]+` consumes. */
  function LocalRun(s: string): (n: nat)
    ensures n <= |s|
    ensures forall i :: 0 <= i < n ==> IsLocalChar(s[i])
    ensures n < |s| ==> !IsLocalChar(s[n])
  {
    if s == [] || !IsLocalChar(s[0]) then 0 else 1 + LocalRun(s[1..])
  }


  /** The longest local run is the only one: a prefix of local characters that
      stops at a non-local character is exactly what `LocalRun` finds. */
  lemma LocalRunIs(s: string, k: nat)
    requires k < |s| && !IsLocalChar(s[k])
    requires forall i :: 0 <= i < k ==> IsLocalChar(s[i])
    ensures LocalRun(s) == k
  {
  }

  /** Where an address (or an address and its newline) has its `@`: at the
      end of the longest local run of the whole string. */
  lemma AddressAtRun(s: string, t: string, k: int)
    requires t == s || (|s| > 0 && t == s[..|s| - 1])
    requires AddressAt(t, k)
    ensures LocalRun(s) == k
  {
    assert forall i :: 0 <= i <= k ==> t[i] == s[i];
    LocalRunIs(s, k);
  }

  /** The scanner's first accepting case: an address with nothing after it. */
  lemma ScanPlain(s: string)
    ensures var n := LocalRun(s); var rest := s[n..];
      (n > 0 && |rest| > 1 && rest[0] == '@' && IsAllowedHost(rest[1..])) <==> AddressAt(s, n)
  {
    var n := LocalRun(s);
    if n < |s| {
      assert s[n..][1..] == s[n + 1..];
    }
  }

  /** The scanner's second accepting case: an address and one newline. */
  lemma ScanNewline(s: string)
    ensures |s| > 0 && s[|s| - 1] == '\n' ==>
      var n := LocalRun(s); var rest := s[n..];
      (n > 0 && |rest| > 1 && rest[0] == '@' && IsAllowedHost(rest[1..|rest| - 1]))
        <==> AddressAt(s[..|s| - 1], n)
  {
    var n := LocalRun(s);
    if |s| > 0 && s[|s| - 1] == '\n' && n + 1 < |s| {
      var t := s[..|s| - 1];
      assert s[n..][1..|s| - n - 1] == t[n + 1..];
      assert forall i :: 0 <= i <= n ==> t[i] == s[i];
    }
  }

  /** `is_valid_email`: scan the local run, then expect `@` and an allowed
      host, optionally followed by one newline. It accepts exactly when the
      string, or the string without its final newline, is an address whose
      `@` stands right after the longest run of local-part characters. */
  function IsValidEmail(s: string): (r: bool)
    ensures var n := LocalRun(s);
      r <==> (|| AddressAt(s, n)
              || (|s| > 0 && s[|s| - 1] == '\n' && AddressAt(s[..|s| - 1], n)))
  {
    ScanPlain(s);
    ScanNewline(s);
    var n := LocalRun(s);
    var rest := s[n..];
    && n > 0
    && |rest| > 1 && rest[0] == '@'
    && (|| IsAllowedHost(rest[1..])
        || (rest[|rest| - 1] == '\n' && IsAllowedHost(rest[1..|rest| - 1])))
  }

  /** The hand-written scanner accepts exactly the strings the pattern matches. */
  lemma IsValidEmailCorrect(s: string)
    ensures IsValidEmail(s) <==> Matches(s)
  {
    if IsAddress(s) {
      var k :| AddressAt(s, k);
      AddressAtRun(s, s, k);
    }
    if |s| > 0 && IsAddress(s[..|s| - 1]) {
      var k :| AddressAt(s[..|s| - 1], k);
      AddressAtRun(s, s[..|s| - 1], k);
    }
  }

  /** Every string of the documented form is accepted: a non-empty local part
      over `[\w\.-]`, `@`, one of the four domains, `.com`, and either nothing
      or one newline at the end. */
  lemma AcceptsForm(local: string, domain: string, newline: bool)
    requires |local| > 0 && forall i :: 0 <= i < |local| ==> IsLocalChar(local[i])
    requires IsAllowedDomain(domain)
    ensures IsValidEmail(local + "@" + domain + ".com" + (if newline then "\n" else ""))
  {
    var t := local + "@" + domain + ".com";
    var s := t + (if newline then "\n" else "");
    var h := t[|local| + 1..];
    assert h == domain + ".com";
    assert h[..|h| - 4] == domain && h[|h| - 4..] == ".com";
    assert forall i :: 0 <= i < |local| ==> t[i] == local[i];
    assert AddressAt(t, |local|);
    if newline {
      assert s[..|s| - 1] == t;
    } else {
      assert s == t;
    }
    IsValidEmailCorrect(s);
  }

  /** The trailing newline is allowed once: `s + "\n"` is accepted exactly when
      `s` itself is an address, and no string ending in two newlines is. */
  lemma OneTrailingNewline(s: string)
    ensures IsValidEmail(s + "\n") <==> IsAddress(s)
    ensures !IsValidEmail(s + "\n\n")
  {
    var s1 := s + "\n";
    var s2 := s + "\n\n";
    IsValidEmailCorrect(s1);
    IsValidEmailCorrect(s2);
    assert s1[..|s1| - 1] == s;
    assert s2[..|s2| - 1] == s1;
    NotAddressEndingNewline(s1);
    NotAddressEndingNewline(s2);
  }

  /** An address ends in `m`, never in a newline. */
  lemma NotAddressEndingNewline(t: string)
    requires |t| > 0 && t[|t| - 1] == '\n'
    ensures !IsAddress(t)
  {
  }

  /** A valid example, with and without the newline `$` tolerates. */
  lemma AcceptedExamples()
    ensures IsValidEmail("user@gmail.com")
    ensures IsValidEmail("user@gmail.com\n")
  {
    AcceptsForm("user", "gmail", false);
    assert "user" + "@" + "gmail" + ".com" + "" == "user@gmail.com";
    AcceptsForm("user", "gmail", true);
    assert "user" + "@" + "gmail" + ".com" + "\n" == "user@gmail.com\n";
  }

  /** The local part must not be empty: a string starting with `@` is refused. */
  lemma RejectsEmptyLocal(s: string)
    requires |s| > 0 && s[0] == '@'
    ensures !IsValidEmail(s)
  {
  }

  /** An allowed host is a domain and `.com`, none of which is an `@`. */
  lemma AllowedHostHasNoAt(h: string)
    requires IsAllowedHost(h)
    ensures forall k :: 0 <= k < |h| ==> h[k] != '@'
  {
    var d := h[..|h| - 4];
    assert forall k :: 0 <= k < |d| ==> d[k] != '@';
    forall k | 0 <= k < |h| ensures h[k] != '@' {
      if k < |d| {
        assert h[k] == d[k];
      } else {
        assert h[k] == h[|h| - 4..][k - |d|];
      }
    }
  }

  /** The host ends the string: whatever is accepted ends in `.com`, or in
      `.com` and the one newline `$` tolerates; so no longer host and no other
      top-level domain gets through. */
  lemma EndsWithCom(s: string)
    requires IsValidEmail(s)
    ensures || (|s| >= 4 && s[|s| - 4..] == ".com")
            || (|s| >= 5 && s[|s| - 5..] == ".com\n")
  {
    var n := LocalRun(s);
    if AddressAt(s, n) {
      var h := s[n + 1..];
      assert s[|s| - 4..] == h[|h| - 4..];
    } else {
      var t := s[..|s| - 1];
      var h := t[n + 1..];
      assert t[|t| - 4..] == h[|h| - 4..];
      assert s[|s| - 5..] == t[|t| - 4..] + "\n";
    }
  }

  /** An address has no `@` besides the one at `k`. */
  lemma AddressAtOnlyAt(t: string, k: int)
    requires AddressAt(t, k)
    ensures forall i :: 0 <= i < |t| && t[i] == '@' ==> i == k
  {
    var h := t[k + 1..];
    AllowedHostHasNoAt(h);
    assert forall i :: k < i < |t| ==> t[i] == h[i - k - 1];
  }

  /** The same for an address followed by one more character. */
  lemma AddressAtOnlyAtBefore(s: string, k: int)
    requires |s| > 0 && s[|s| - 1] == '\n' && AddressAt(s[..|s| - 1], k)
    ensures k < |s| && s[k] == '@'
    ensures forall i :: 0 <= i < |s| && s[i] == '@' ==> i == k
  {
    var t := s[..|s| - 1];
    AddressAtOnlyAt(t, k);
    assert s[k] == t[k];
    forall i | 0 <= i < |s| && s[i] == '@' ensures i == k {
      if i < |t| {
        assert s[i] == t[i];
      }
    }
  }

  /** An accepted string has exactly one `@`: the one right after the local
      part. */
  lemma OneAt(s: string)
    requires IsValidEmail(s)
    ensures LocalRun(s) < |s| && s[LocalRun(s)] == '@'
    ensures forall i :: 0 <= i < |s| && s[i] == '@' ==> i == LocalRun(s)
  {
    var n := LocalRun(s);
    if AddressAt(s, n) {
      AddressAtOnlyAt(s, n);
    } else {
      AddressAtOnlyAtBefore(s, n);
    }
  }
}
