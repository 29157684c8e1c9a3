/** The e-mail format User.java accepts: a whole-string match of the regular expression
    [-.\w]+@([\w-]+\.)+[\w-]+ , where \w is [a-zA-Z_0-9]. IsEmail is a hand-written
    recognizer; MatchesEmailRegex is the expression's meaning, written down clause by clause. */
module Email {

  /** \w */
  predicate IsWordChar(c: char) {
    ('a' <= c <= 'z') || ('A' <= c <= 'Z') || ('0' <= c <= '9') || c == '_'
  }

  /** [-.\w] */
  predicate IsLocalChar(c: char) {
    IsWordChar(c) || c == '-' || c == '.'
  }

  /** [\w-] */
  predicate IsLabelChar(c: char) {
    IsWordChar(c) || c == '-'
  }

  // ---------------------------------------------------------------------------
  // The regular expression's meaning.

  /** [-.\w]+ */
  ghost predicate LocalPart(s: string) {
    |s| >= 1 && forall i :: 0 <= i < |s| ==> IsLocalChar(s[i])
  }

  /** [\w-]+ */
  ghost predicate Label(s: string) {
    |s| >= 1 && forall i :: 0 <= i < |s| ==> IsLabelChar(s[i])
  }

  /** [\w-]+\. */
  ghost predicate Group(t: string) {
    |t| >= 2 && t[|t| - 1] == '.' && Label(t[..|t| - 1])
  }

  /** ([\w-]+\.)+[\w-]+ : one group, then either the final label or again groups and a label. */
  ghost predicate GroupsThenLabel(t: string)
    decreases |t|
  {
    exists j :: 0 < j <= |t| && Group(t[..j]) && (Label(t[j..]) || GroupsThenLabel(t[j..]))
  }

  /** The whole string matches [-.\w]+@([\w-]+\.)+[\w-]+ . */
  ghost predicate MatchesEmailRegex(s: string) {
    exists i :: 0 <= i < |s| && s[i] == '@' && LocalPart(s[..i]) && GroupsThenLabel(s[i + 1..])
  }

  // ---------------------------------------------------------------------------
  // The recognizer.

  /** c belongs to [-.\w] (local) or to [\w-] (not local). */
  predicate Allowed(c: char, local: bool) {
    if local then IsLocalChar(c) else IsLabelChar(c)
  }

  /** Length of the longest prefix of s made of allowed characters. */
  function Span(s: string, local: bool): (n: nat)
    ensures n <= |s|
    ensures forall k :: 0 <= k < n ==> Allowed(s[k], local)
    ensures n < |s| ==> !Allowed(s[n], local)
  {
    if s == [] || !Allowed(s[0], local) then 0 else 1 + Span(s[1..], local)
  }

  /** A domain: labels separated by single dots; `dotted` says a dot has already been seen,
      so that a last label alone may end it. */
  predicate IsDomain(d: string, dotted: bool)
    decreases |d|
  {
    var n := Span(d, false);
    n > 0 && (if n == |d| then dotted else d[n] == '.' && IsDomain(d[n + 1..], true))
  }

  /** The recognizer: a local part up to the first character outside [-.\w], which must be
      the '@', then a dotted domain. */
  predicate IsEmail(s: string) {
    var n := Span(s, true);
    0 < n < |s| && s[n] == '@' && IsDomain(s[n + 1..], false)
  }

  // ---------------------------------------------------------------------------
  // The recognizer decides the regular expression.

  /** A prefix of allowed characters followed by a character that is not allowed is the span. */
  lemma SpanIsExact(s: string, local: bool, j: nat)
    requires j <= |s|
    requires forall k :: 0 <= k < j ==> Allowed(s[k], local)
    requires j < |s| ==> !Allowed(s[j], local)
    ensures Span(s, local) == j
  {
  }

  /** A group's characters: a label, then its dot. */
  lemma GroupChars(d: string, j: int)
    requires 0 < j <= |d| && Group(d[..j])
    ensures d[j - 1] == '.' && forall k :: 0 <= k < j - 1 ==> IsLabelChar(d[k])
  {
    assert d[j - 1] == d[..j][j - 1];
    forall k | 0 <= k < j - 1 ensures IsLabelChar(d[k]) {
      assert d[k] == d[..j][..j - 1][k];
    }
  }

  /** A single label is a domain once a dot has been seen. */
  lemma LabelIsDomain(d: string)
    requires Label(d)
    ensures IsDomain(d, true)
  {
    SpanIsExact(d, false, |d|);
  }

  /** The recognizer's domain is the regular expression's. */
  lemma {:induction false} DomainToRegex(d: string, dotted: bool)
    requires IsDomain(d, dotted)
    ensures (dotted && Label(d)) || GroupsThenLabel(d)
    decreases |d|
  {
    var n := Span(d, false);
    if n < |d| {
      var rest := d[n + 1..];
      DomainToRegex(rest, true);
      assert d[..n + 1][..n] == d[..n];
      assert Group(d[..n + 1]);
      assert d[n + 1..] == rest;
    }
  }

  /** The regular expression's domain is the recognizer's, whether or not a dot was seen. */
  lemma {:induction false} RegexToDomain(d: string, dotted: bool)
    requires GroupsThenLabel(d)
    ensures IsDomain(d, dotted)
    decreases |d|
  {
    var j :| 0 < j <= |d| && Group(d[..j]) && (Label(d[j..]) || GroupsThenLabel(d[j..]));
    GroupChars(d, j);
    SpanIsExact(d, false, j - 1);
    if Label(d[j..]) {
      LabelIsDomain(d[j..]);
    } else {
      RegexToDomain(d[j..], true);
    }
  }

  lemma EmailToRegex(s: string)
    requires IsEmail(s)
    ensures MatchesEmailRegex(s)
  {
    var n := Span(s, true);
    DomainToRegex(s[n + 1..], false);
    assert LocalPart(s[..n]);
  }

  lemma RegexToEmail(s: string, i: int)
    requires 0 <= i < |s| && s[i] == '@' && LocalPart(s[..i]) && GroupsThenLabel(s[i + 1..])
    ensures IsEmail(s)
  {
    forall k | 0 <= k < i ensures Allowed(s[k], true) {
      assert s[k] == s[..i][k];
    }
    SpanIsExact(s, true, i);
    RegexToDomain(s[i + 1..], false);
  }

  /** The recognizer accepts exactly the strings the regular expression matches in full. */
  lemma EmailMatchesRegex(s: string)
    ensures IsEmail(s) <==> MatchesEmailRegex(s)
  {
    if IsEmail(s) {
      EmailToRegex(s);
    }
    if MatchesEmailRegex(s) {
      var i :| 0 <= i < |s| && s[i] == '@' && LocalPart(s[..i]) && GroupsThenLabel(s[i + 1..]);
      RegexToEmail(s, i);
    }
  }

  // ---------------------------------------------------------------------------
  // The shape of an accepted address.

  /** One or more non-empty [\w-] labels separated by single dots. */
  ghost predicate DotSeparatedLabels(d: string) {
    && |d| >= 1
    && (forall k :: 0 <= k < |d| ==> IsLabelChar(d[k]) || d[k] == '.')
    && d[0] != '.' && d[|d| - 1] != '.'
    && (forall k :: 0 <= k < |d| - 1 && d[k] == '.' ==> d[k + 1] != '.')
  }

  lemma {:induction false} DomainHasShape(d: string, dotted: bool)
    requires IsDomain(d, dotted)
    ensures DotSeparatedLabels(d) && (dotted || '.' in d)
    decreases |d|
  {
    var n := Span(d, false);
    if n < |d| {
      var rest := d[n + 1..];
      DomainHasShape(rest, true);
      forall k | 0 <= k < |d| ensures IsLabelChar(d[k]) || d[k] == '.' {
        if k > n { assert d[k] == rest[k - n - 1]; }
      }
      forall k | 0 <= k < |d| - 1 && d[k] == '.' ensures d[k + 1] != '.' {
        if k > n { assert d[k] == rest[k - n - 1] && d[k + 1] == rest[k - n]; }
        else if k == n { assert d[k + 1] == rest[0]; }
      }
      assert d[|d| - 1] == rest[|rest| - 1];
    }
  }

  lemma {:induction false} ShapeIsDomain(d: string, dotted: bool)
    requires DotSeparatedLabels(d) && (dotted || '.' in d)
    ensures IsDomain(d, dotted)
    decreases |d|
  {
    var n := Span(d, false);
    if n < |d| {
      assert d[n] == '.' by { assert !Allowed(d[n], false); }
      assert n > 0;
      var rest := d[n + 1..];
      assert n + 1 < |d|;
      forall k | 0 <= k < |rest| ensures IsLabelChar(rest[k]) || rest[k] == '.' {
        assert rest[k] == d[n + 1 + k];
      }
      forall k | 0 <= k < |rest| - 1 && rest[k] == '.' ensures rest[k + 1] != '.' {
        assert rest[k] == d[n + 1 + k] && rest[k + 1] == d[n + 2 + k];
      }
      assert rest[0] == d[n + 1] && rest[|rest| - 1] == d[|d| - 1];
      ShapeIsDomain(rest, true);
    } else {
      assert '.' !in d by {
        forall k | 0 <= k < |d| ensures d[k] != '.' { assert Allowed(d[k], false); }
      }
    }
  }

  /** A non-empty [-.\w] local part ending at an '@' at index i, and a domain of at least
      two non-empty [\w-] labels separated by single dots after it. */
  ghost predicate ShapedAt(s: string, i: int) {
    && 0 < i < |s| && s[i] == '@'
    && (forall k :: 0 <= k < i ==> IsLocalChar(s[k]))
    && DotSeparatedLabels(s[i + 1..]) && '.' in s[i + 1..]
  }

  lemma AcceptedIsShaped(s: string)
    requires IsEmail(s)
    ensures ShapedAt(s, Span(s, true))
  {
    DomainHasShape(s[Span(s, true) + 1..], false);
  }

  lemma ShapedIsAccepted(s: string, i: int)
    requires ShapedAt(s, i)
    ensures IsEmail(s)
  {
    SpanIsExact(s, true, i);
    ShapeIsDomain(s[i + 1..], false);
  }

  /** An accepted address is a non-empty [-.\w] local part, an '@', and a domain of at
      least two dot-separated labels; every string of that shape is accepted. */
  lemma EmailShape(s: string)
    ensures IsEmail(s) <==> exists i :: ShapedAt(s, i)
  {
    if IsEmail(s) {
      AcceptedIsShaped(s);
    }
    if exists i :: ShapedAt(s, i) {
      var i :| ShapedAt(s, i);
      ShapedIsAccepted(s, i);
    }
  }

  /** An accepted address holds exactly one '@'. */
  lemma EmailHasOneAt(s: string)
    requires IsEmail(s)
    ensures exists i :: 0 <= i < |s| && s[i] == '@' && (forall k :: 0 <= k < |s| && s[k] == '@' ==> k == i)
  {
    var n := Span(s, true);
    DomainHasShape(s[n + 1..], false);
    assert forall k :: 0 <= k < |s| && s[k] == '@' ==> k == n;
  }

  /** The addresses of UserTest: one accepted, one rejected. */
  lemma AcceptedExample()
    ensures IsEmail("alice@example.com")
  {
    var s := "alice@example.com";
    AliceSpan();
    assert s[6..] == "example.com";
    ExampleDomain();
  }

  lemma AcceptedMatchesRegex()
    ensures MatchesEmailRegex("alice@example.com")
  {
    AcceptedExample();
    EmailToRegex("alice@example.com");
  }

  lemma ExampleDomain()
    ensures IsDomain("example.com", false)
  {
    ExampleComSpan();
    assert "example.com"[8..] == "com";
    ComIsLabel();
  }

  lemma ComIsLabel()
    ensures Span("com", false) == 3
  {
    var c := "com";
    assert Allowed(c[0], false) && Allowed(c[1], false) && Allowed(c[2], false);
    SpanIsExact(c, false, 3);
  }

  lemma ExampleComSpan()
    ensures Span("example.com", false) == 7
  {
    var d := "example.com";
    assert Allowed(d[0], false) && Allowed(d[1], false) && Allowed(d[2], false) && Allowed(d[3], false);
    assert Allowed(d[4], false) && Allowed(d[5], false) && Allowed(d[6], false) && !Allowed(d[7], false);
    SpanIsExact(d, false, 7);
  }

  lemma AliceSpan()
    ensures Span("alice@example.com", true) == 5
  {
    var s := "alice@example.com";
    assert Allowed(s[0], true) && Allowed(s[1], true) && Allowed(s[2], true) && Allowed(s[3], true);
    assert Allowed(s[4], true) && !Allowed(s[5], true);
    SpanIsExact(s, true, 5);
  }

  lemma RejectedExample()
    ensures !IsEmail("@alice@example@.com")
  {
    SpanIsExact("@alice@example@.com", true, 0);
  }
}
