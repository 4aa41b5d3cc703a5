/** The address check `is_valid_email`, a full match of
    `^[\w\.-]+@[a-zA-Z\d\.-]+\.[a-zA-Z]{2,}$` with ASCII character classes. */
module EmailFormat {
  import opened Strings

  predicate IsAsciiLetter(c: char) {
    'a' <= c <= 'z' || 'A' <= c <= 'Z'
  }

  predicate IsAsciiDigit(c: char) {
    '0' <= c <= '9'
  }

  /** The class `[\w\.-]` of the local part. */
  predicate IsLocalChar(c: char) {
    IsAsciiLetter(c) || IsAsciiDigit(c) || c == '_' || c == '.' || c == '-'
  }

  /** The class `[a-zA-Z\d\.-]` of the domain. */
  predicate IsDomainChar(c: char) {
    IsAsciiLetter(c) || IsAsciiDigit(c) || c == '.' || c == '-'
  }

  /** `s` splits as local `@` domain `.` top-level domain, with the `@` at `i`
      and the separating dot at `j`: the local part and the domain are
      non-empty runs of their classes and the top-level domain is at least two
      ASCII letters. */
  ghost predicate SplitsAt(s: string, i: int, j: int) {
    && 0 < i && i + 1 < j && j + 2 < |s|
    && s[i] == '@' && s[j] == '.'
    && (forall k :: 0 <= k < i ==> IsLocalChar(s[k]))
    && (forall k :: i < k < j ==> IsDomainChar(s[k]))
    && (forall k :: j < k < |s| ==> IsAsciiLetter(s[k]))
  }

  /** The regular language of the pattern without its end anchor quirk. */
  ghost predicate InLanguage(s: string) {
    exists i, j :: SplitsAt(s, i, j)
  }

  /** Decides membership in the language: the `@` must be the first one (no
      class admits `@`) and the separating dot the last one (the top-level
      domain admits no dot). */
  function MatchesAddress(s: string): (b: bool)
    ensures b <==> InLanguage(s)
  {
    var i := FirstIndex(s, '@');
    var j := LastIndex(s, '.');
    var b :=
      && 0 < i && i + 1 < j && j + 2 < |s|
      && (forall k | 0 <= k < i :: IsLocalChar(s[k]))
      && (forall k | i < k < j :: IsDomainChar(s[k]))
      && (forall k | j < k < |s| :: IsAsciiLetter(s[k]));
    assert b ==> SplitsAt(s, i, j);
    assert InLanguage(s) ==> b by {
      if InLanguage(s) {
        var i', j' :| SplitsAt(s, i', j');
        assert '@' !in s[..i'];
        assert i == i';
        assert '.' !in s[j' + 1..];
        assert '.' in s by { assert s[j'] == '.'; }
        assert 0 <= j < |s|;
      }
    }
    b
  }

  /** `is_valid_email(s)`: `re.match` of the anchored pattern. Python's `$`
      also matches just before a final newline, so an address followed by one
      `\n` passes as well. */
  function IsValidEmail(s: string): (b: bool)
    ensures b <==> InLanguage(s) || (|s| > 0 && s[|s| - 1] == '\n' && InLanguage(s[..|s| - 1]))
  {
    MatchesAddress(s) || (|s| > 0 && s[|s| - 1] == '\n' && MatchesAddress(s[..|s| - 1]))
  }

  /** A string in the language holds exactly one `@`. */
  lemma InLanguageHasOneAt(t: string)
    requires InLanguage(t)
    ensures multiset(t)['@'] == 1
  {
    var i, j :| SplitsAt(t, i, j);
    var pre, post := t[..i], t[i + 1..];
    assert t == pre + [t[i]] + post;
    assert '@' !in pre by {
      forall k | 0 <= k < i ensures pre[k] != '@' {
        assert IsLocalChar(t[k]);
      }
    }
    assert '@' !in post by {
      forall k | 0 <= k < |post| ensures post[k] != '@' {
        assert post[k] == t[i + 1 + k];
        if i + 1 + k < j { assert IsDomainChar(t[i + 1 + k]); }
        else if i + 1 + k > j { assert IsAsciiLetter(t[i + 1 + k]); }
      }
    }
    assert multiset(t) == multiset(pre) + multiset{'@'} + multiset(post);
  }

  /** No character class of the pattern admits `@`, so a valid address holds
      exactly one. */
  lemma ValidEmailHasOneAt(s: string)
    requires IsValidEmail(s)
    ensures multiset(s)['@'] == 1
  {
    if InLanguage(s) {
      InLanguageHasOneAt(s);
    } else {
      var t := s[..|s| - 1];
      InLanguageHasOneAt(t);
      assert s == t + ['\n'];
      assert multiset(s) == multiset(t) + multiset{'\n'};
    }
  }

  /** The address from the example run is accepted. */
  lemma ExampleAddressValid()
    ensures IsValidEmail("a@b.com")
  {
    assert SplitsAt("a@b.com", 1, 3);
  }

  /** Examples outside the language: no `@`, and a one-letter top-level
      domain. */
  lemma ExampleAddressesInvalid()
    ensures !IsValidEmail("ab.com")
    ensures !IsValidEmail("a@b.c")
  {
    var s, t := "ab.com", "a@b.c";
    forall i, j ensures !SplitsAt(s, i, j) && !SplitsAt(t, i, j) {
      if 0 <= i < |s| { assert s[i] != '@'; }
    }
    assert !IsValidEmail(s) by {
      assert s[|s| - 1] != '\n';
    }
    assert !IsValidEmail(t) by {
      assert t[|t| - 1] != '\n';
    }
  }

  /** The end-anchor quirk: a single trailing newline is accepted. */
  lemma TrailingNewlineAccepted()
    ensures IsValidEmail("a@b.com\n")
  {
    assert "a@b.com\n"[..7] == "a@b.com";
    ExampleAddressValid();
  }
}
