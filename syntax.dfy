/** The address syntax check: the pattern `^[\w\.-]+@[\w\.-]+\.\w+$` applied
    with Python's `re.match`. It is an ad hoc shape, not RFC 5322 syntax. */
module Syntax {
  import opened Wrappers
  import opened Text

  /** `\w`, restricted to ASCII: letters, digits and underscore. */
  predicate IsWordChar(c: char)
  {
    ('a' <= c <= 'z') || ('A' <= c <= 'Z') || ('0' <= c <= '9') || c == '_'
  }

  /** The class `[\w\.-]` used for the local part and the domain body. */
  predicate IsAddrChar(c: char)
  {
    IsWordChar(c) || c == '.' || c == '-'
  }

  predicate AllAddrChars(s: string)
  {
    forall k :: 0 <= k < |s| ==> IsAddrChar(s[k])
  }

  predicate AllWordChars(s: string)
  {
    forall k :: 0 <= k < |s| ==> IsWordChar(s[k])
  }

  /** The regular language of the pattern, read off its concatenation: `s` is
      L `@` A `.` B with the `@` at `i` and the `.` at `j`, where L and A are
      non-empty runs of `[\w\.-]` and B is a non-empty run of `\w`. */
  ghost predicate PatternSplit(s: string, i: nat, j: nat)
  {
    0 < i && i + 1 < j && j + 1 < |s| && s[i] == '@' && s[j] == '.' &&
    AllAddrChars(s[..i]) && AllAddrChars(s[i + 1..j]) && AllWordChars(s[j + 1..])
  }

  ghost predicate InPattern(s: string)
  {
    exists i: nat, j: nat :: PatternSplit(s, i, j)
  }

  /** The domain side `[\w\.-]+\.\w+`: since `\w` has no `.`, the final run
      must start after the LAST `.` of the domain. */
  function MatchDomain(d: string): bool
  {
    match LastIndexOf(d, '.')
    case None => false
    case Some(j) => 0 < j && j + 1 < |d| && AllAddrChars(d[..j]) && AllWordChars(d[j + 1..])
  }

  lemma AddrCharsHaveNoAt(t: string)
    requires AllAddrChars(t)
    ensures '@' !in t
  {
  }

  lemma WordCharsHaveNoDot(t: string)
    requires AllWordChars(t)
    ensures '.' !in t && '-' !in t && '@' !in t
  {
  }

  /** A decision procedure for the whole pattern: since neither class
      admits `@`, the `@` of the pattern must be the FIRST `@` of `s`. */
  function FullMatch(s: string): bool
  {
    match IndexOf(s, '@')
    case None => false
    case Some(i) => 0 < i && AllAddrChars(s[..i]) && MatchDomain(s[i + 1..])
  }

  /** The decision procedure accepts exactly the language of the pattern. */
  lemma FullMatchIsPattern(s: string)
    ensures FullMatch(s) <==> InPattern(s)
  {
    match IndexOf(s, '@')
    case None =>
    case Some(i) =>
      if FullMatch(s) { MatchedIsPattern(s, i); } else { PatternIsMatched(s, i); }
  }

  /** The split that the decision procedure finds is a split of the pattern. */
  lemma MatchedIsPattern(s: string, i: nat)
    requires i < |s| && s[i] == '@'
    requires 0 < i && AllAddrChars(s[..i]) && MatchDomain(s[i + 1..])
    ensures InPattern(s)
  {
    var d := s[i + 1..];
    var j' := LastIndexOf(d, '.').value;
    var j := i + 1 + j';
    assert s[i + 1..j] == d[..j'];
    assert s[j + 1..] == d[j' + 1..];
    assert PatternSplit(s, i, j);
  }

  /** Every split of the pattern puts its `@` at the first `@` of `s` and its
      `.` at the last `.` after it, which the decision procedure checks. */
  lemma PatternIsMatched(s: string, i: nat)
    requires IndexOf(s, '@') == Some(i)
    ensures InPattern(s) ==> 0 < i && AllAddrChars(s[..i]) && MatchDomain(s[i + 1..])
  {
    if !InPattern(s) { return; }
    var a: nat, b: nat :| PatternSplit(s, a, b);
    AddrCharsHaveNoAt(s[..a]);
    IndexOfAt(s, '@', a);
    var d := s[i + 1..];
    var j' := b - i - 1;
    assert d[j'] == '.';
    assert d[..j'] == s[i + 1..b];
    assert d[j' + 1..] == s[b + 1..];
    WordCharsHaveNoDot(d[j' + 1..]);
    LastIndexOfAt(d, '.', j');
  }

  /** `is_valid_syntax`: `re.match` anchors at the start, and `$` matches at
      the end of the string or just before a final newline. */
  function IsValidSyntax(email: string): bool
  {
    FullMatch(email) ||
    (|email| > 0 && email[|email| - 1] == '\n' && FullMatch(email[..|email| - 1]))
  }

  /** The strings `is_valid_syntax` accepts are exactly L `@` A `.` B (L and
      A non-empty runs of `[\w\.-]`, B a non-empty run of `\w`), optionally
      followed by one newline. */
  lemma ValidSyntaxIsPattern(email: string)
    ensures IsValidSyntax(email) <==>
      (InPattern(email) ||
       (|email| > 0 && email[|email| - 1] == '\n' && InPattern(email[..|email| - 1])))
  {
    FullMatchIsPattern(email);
    if |email| > 0 {
      FullMatchIsPattern(email[..|email| - 1]);
    }
  }

  /** The text `$` lets the pattern see: the address without a final newline. */
  function Matched(email: string): (t: string)
    requires IsValidSyntax(email)
    ensures InPattern(t) && (t == email || t + "\n" == email)
  {
    if FullMatch(email) then
      FullMatchIsPattern(email);
      email
    else
      var t := email[..|email| - 1];
      FullMatchIsPattern(t);
      assert email == t + "\n";
      t
  }

  /** The character facts a split of the pattern gives. */
  lemma SplitCharacters(t: string, i: nat, j: nat)
    requires PatternSplit(t, i, j)
    ensures '@' !in t[..i] && '@' !in t[i + 1..]
    ensures '.' !in t[j + 1..] && '-' !in t[j + 1..]
  {
    AddrCharsHaveNoAt(t[..i]);
    AddrCharsHaveNoAt(t[i + 1..j]);
    WordCharsHaveNoDot(t[j + 1..]);
    assert t[i + 1..] == t[i + 1..j] + "." + t[j + 1..];
  }

  /** A string with exactly one `@`, at `i`, splits into the text before and
      the text after it. */
  lemma SplitAtOnlyAt(s: string, i: nat)
    requires i < |s| && s[i] == '@' && '@' !in s[..i] && '@' !in s[i + 1..]
    ensures Split(s, '@') == [s[..i], s[i + 1..]]
  {
    assert Join([s[..i], s[i + 1..]], '@') == s;
    SplitJoin([s[..i], s[i + 1..]], '@');
  }

  /** The split of a valid address: its `@` is the pattern's, and the
      address is the matched text, perhaps followed by one newline. */
  lemma ValidSplit(email: string) returns (t: string, i: nat, j: nat)
    requires IsValidSyntax(email)
    ensures PatternSplit(t, i, j) && (t == email || t + "\n" == email)
    ensures Split(email, '@') == [email[..i], email[i + 1..]]
  {
    t := Matched(email);
    i, j :| PatternSplit(t, i, j);
    SplitCharacters(t, i, j);
    if t != email {
      assert email[i + 1..] == t[i + 1..] + "\n";
    }
    SplitAtOnlyAt(email, i);
  }

  /** A valid address holds exactly one `@`, so `email.split('@')` has two
      pieces, the second one being everything after the `@`. */
  lemma ValidSyntaxHasOneAt(email: string)
    requires IsValidSyntax(email)
    ensures |Split(email, '@')| == 2
    ensures Split(email, '@')[0] + "@" + Split(email, '@')[1] == email
  {
    var t, i, j := ValidSplit(email);
    assert email == email[..i] + "@" + email[i + 1..];
  }

  /** The domain side of a split, with what may follow it. */
  lemma DomainOfSplit(t: string, i: nat, j: nat, d: string)
    requires PatternSplit(t, i, j)
    requires d == t[i + 1..] || d == t[i + 1..] + "\n"
    ensures LastIndexOf(d, '.') == Some(j - i - 1)
    ensures '-' !in d[j - i..]
    ensures d == t[i + 1..] ==> MatchDomain(d)
  {
    SplitCharacters(t, i, j);
    var j' := j - i - 1;
    assert d[j'] == '.';
    if d == t[i + 1..] {
      assert d[j' + 1..] == t[j + 1..];
      assert d[..j'] == t[i + 1..j];
    } else {
      assert d[j' + 1..] == t[j + 1..] + "\n";
    }
    LastIndexOfAt(d, '.', j');
  }

  /** `email.split('@')[1]` for an address that passed the check: always in
      range, and everything after the single `@`. */
  function DomainOf(email: string): (d: string)
    requires IsValidSyntax(email)
    ensures exists local :: local + "@" + d == email && '@' !in local && '@' !in d
  {
    ValidSyntaxHasOneAt(email);
    var parts := Split(email, '@');
    assert '@' !in parts[0] && '@' !in parts[1];
    parts[1]
  }

  /** What the pattern implies about the domain: it holds a `.`, the text
      before its last `.` is not empty, and the text after its last `.` holds
      no `-`; without a final newline it is exactly the domain side of the
      pattern. */
  lemma DomainShape(email: string)
    requires IsValidSyntax(email)
    ensures LastIndexOf(DomainOf(email), '.').Some?
    ensures LastIndexOf(DomainOf(email), '.').value > 0
    ensures '-' !in DomainOf(email)[LastIndexOf(DomainOf(email), '.').value + 1..]
    ensures email[|email| - 1] != '\n' ==> MatchDomain(DomainOf(email))
  {
    var t, i, j := ValidSplit(email);
    assert DomainOf(email) == email[i + 1..];
    DomainAfterSplit(email, t, i, j);
  }

  lemma DomainAfterSplit(email: string, t: string, i: nat, j: nat)
    requires PatternSplit(t, i, j) && (t == email || t + "\n" == email)
    ensures LastIndexOf(email[i + 1..], '.') == Some(j - i - 1)
    ensures '-' !in email[i + 1..][j - i..]
    ensures email[|email| - 1] != '\n' ==> MatchDomain(email[i + 1..])
  {
    var d := email[i + 1..];
    if t == email {
      DomainOfSplit(t, i, j, d);
    } else {
      assert d == t[i + 1..] + "\n";
      DomainOfSplit(t, i, j, d);
      assert email[|email| - 1] == '\n';
    }
  }
}
