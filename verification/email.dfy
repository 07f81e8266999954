/** The contact form's e-mail check, the pattern `^[^\s@]+@[^\s@]+\.[^\s@]+$`,
    stated as an explicit predicate rather than a regular-expression engine.

    The pattern accepts exactly the strings `L "@" A "." B` where `L`, `A` and `B`
    are non-empty and contain neither whitespace nor `@`. `A` and `B` may contain
    dots themselves; the check is an informal one, not the grammar of RFC 5322. */
module Email {
  import opened Text

  /** A character the class `[^\s@]` admits. */
  predicate TokenChar(c: char) {
    !IsSpace(c) && c != '@'
  }

  /** A match of `[^\s@]+`. */
  predicate Token(t: string) {
    |t| > 0 && forall k :: 0 <= k < |t| ==> TokenChar(t[k])
  }

  /** `s` reads as `L "@" A "." B` with its `@` at index `i` and the separating
      dot at index `j`. */
  predicate SplitsAt(s: string, i: int, j: int) {
    && 0 <= i < j < |s|
    && s[i] == '@'
    && s[j] == '.'
    && Token(s[..i])
    && Token(s[i + 1..j])
    && Token(s[j + 1..])
  }

  /** The language of the pattern. */
  ghost predicate IsEmail(s: string) {
    exists i, j :: SplitsAt(s, i, j)
  }

  /** Number of occurrences of `c` in `s`. */
  function Count(s: string, c: char): nat {
    if s == [] then 0 else (if s[0] == c then 1 else 0) + Count(s[1..], c)
  }

  /** What every split tells about the whole string: no whitespace anywhere, the
      `@` at `i` is the only one, and the dot lies strictly inside the part after it. */
  lemma SplitFacts(s: string, i: int, j: int)
    requires SplitsAt(s, i, j)
    ensures forall m :: 0 <= m < |s| ==> !IsSpace(s[m])
    ensures forall m :: 0 <= m < |s| && m != i ==> s[m] != '@'
    ensures 0 < i && i + 1 < j && j + 1 < |s|
  {
    forall m | 0 <= m < |s| && m != i
      ensures TokenChar(s[m]) || m == j
    {
      if m < i {
        assert s[m] == s[..i][m];
      } else if i < m < j {
        assert s[m] == s[i + 1..j][m - i - 1];
      } else if j < m {
        assert s[m] == s[j + 1..][m - j - 1];
      }
    }
  }

  /** `emailRegex.test(s)`, computed in one left-to-right scan: it remembers the
      position of the first `@`, fails on whitespace or a second `@`, and notes
      a dot that could separate `A` from `B`. */
  method TestEmail(s: string) returns (ok: bool)
    ensures ok <==> IsEmail(s)
  {
    var at := -1;
    var dot := false;
    var k := 0;
    while k < |s|
      invariant 0 <= k <= |s|
      invariant forall m :: 0 <= m < k ==> !IsSpace(s[m])
      invariant -1 <= at < k
      invariant at == -1 ==> forall m :: 0 <= m < k ==> s[m] != '@'
      invariant at != -1 ==> 0 < at && s[at] == '@'
      invariant at != -1 ==> forall m :: 0 <= m < k && m != at ==> s[m] != '@'
      invariant dot <==> at != -1 && exists d :: at + 1 < d < k && d + 1 < |s| && s[d] == '.'
    {
      var c := s[k];
      if IsSpace(c) {
        NoSplitThrough(s, k);
        return false;
      }
      if c == '@' {
        if at != -1 || k == 0 {
          NoSplitThrough(s, k);
          return false;
        }
        at := k;
      } else if c == '.' && at != -1 && at + 1 < k && k + 1 < |s| {
        dot := true;
      }
      k := k + 1;
    }
    ok := at != -1 && dot;
    if ok {
      var d :| at + 1 < d < |s| && d + 1 < |s| && s[d] == '.';
      SplitOfShape(s, at, d);
    } else {
      forall i, j | SplitsAt(s, i, j)
        ensures at == i && at + 1 < j < |s| - 1 && s[j] == '.'
      {
        SplitFacts(s, i, j);
      }
    }
  }

  /** Index `k` cannot hold whitespace, and can hold an `@` only as the one
      split point, which is never the first character. */
  lemma NoSplitThrough(s: string, k: int)
    requires 0 <= k < |s|
    ensures IsSpace(s[k]) ==> !IsEmail(s)
    ensures forall i, j :: SplitsAt(s, i, j) && s[k] == '@' ==> i == k && 0 < k
  {
    forall i, j | SplitsAt(s, i, j)
      ensures !IsSpace(s[k]) && (s[k] == '@' ==> i == k && 0 < k)
    {
      SplitFacts(s, i, j);
    }
  }

  /** Conversely, a string free of whitespace with a single `@` at `i > 0` and a
      dot strictly inside the rest splits there. */
  lemma SplitOfShape(s: string, i: int, j: int)
    requires 0 < i && i + 1 < j && j + 1 < |s|
    requires forall m :: 0 <= m < |s| ==> !IsSpace(s[m])
    requires forall m :: 0 <= m < |s| && m != i ==> s[m] != '@'
    requires s[i] == '@' && s[j] == '.'
    ensures SplitsAt(s, i, j)
  {
    forall m | 0 <= m < i ensures TokenChar(s[..i][m]) {
      assert s[..i][m] == s[m];
    }
    var a, b := s[i + 1..j], s[j + 1..];
    forall m | 0 <= m < |a| ensures TokenChar(a[m]) {
      assert a[m] == s[i + 1 + m];
    }
    forall m | 0 <= m < |b| ensures TokenChar(b[m]) {
      assert b[m] == s[j + 1 + m];
    }
  }

  /** A string the pattern accepts holds exactly one `@`. */
  lemma {:induction false} EmailHasOneAt(s: string)
    requires IsEmail(s)
    ensures Count(s, '@') == 1
  {
    var i, j :| SplitsAt(s, i, j);
    SplitFacts(s, i, j);
    CountSingle(s, i);
  }

  lemma {:induction false} CountSingle(s: string, i: int)
    requires 0 <= i < |s| && s[i] == '@'
    requires forall m :: 0 <= m < |s| && m != i ==> s[m] != '@'
    ensures Count(s, '@') == 1
  {
    if i == 0 {
      CountNone(s[1..]);
    } else {
      CountSingle(s[1..], i - 1);
    }
  }

  lemma {:induction false} CountNone(s: string)
    requires forall m :: 0 <= m < |s| ==> s[m] != '@'
    ensures Count(s, '@') == 0
  {
    if s != [] {
      CountNone(s[1..]);
    }
  }

  /** A string with no `@`, such as "not-an-email", is rejected. */
  lemma NotAnEmailRejected()
    ensures !IsEmail("not-an-email")
  {
  }

  /** A typical address is accepted, and the part after `@` may hold several dots. */
  lemma SampleAddressesAccepted()
    ensures IsEmail("user@example.com")
    ensures IsEmail("a@b.c.d")
  {
    assert SplitsAt("user@example.com", 4, 12);
    assert SplitsAt("a@b.c.d", 1, 3);
  }

  /** Whitespace `c` around an address makes it fail the pattern although the value
      is not blank: the pattern is applied to the untrimmed value. */
  lemma PaddedEmailRejected(s: string, c: char)
    requires IsEmail(s) && IsSpace(c)
    ensures !IsEmail([c] + s) && !IsEmail(s + [c])
    ensures !AllSpace([c] + s) && !AllSpace(s + [c])
  {
    NoSplitThrough([c] + s, 0);
    NoSplitThrough(s + [c], |s|);
    var i, j :| SplitsAt(s, i, j);
    assert ([c] + s)[1] == s[0];
    assert (s + [c])[0] == s[0];
  }
}
