/** The template side of sending: `read_email_template` splits the file into
    subject and body, and `send_email` personalises the body and appends the
    open-tracking beacon. */
module Template {
  import opened Wrappers
  import opened Strings

  /** Where recipients' mail clients fetch the one-pixel beacon. */
  const TrackingImageUrl: string := "http://13.215.200.90/track.png"

  /** The beacon tag appended to every body. */
  const BeaconTag: string := "<img src=\"" + TrackingImageUrl + "\" width=\"1\" height=\"1\" alt=\"\"/>"

  const NamePlaceholder: string := "#name#"
  const DepartmentPlaceholder: string := "#department#"

  /** `read_email_template`: `content.split('\n', 1)`; the first line is the
      subject and the rest, newlines included, is the body. Without a newline
      the split has one part and taking the second raises `IndexError`. */
  function ReadEmailTemplate(content: string): (r: Result<(string, string), Error>)
    ensures r.Success? <==> '\n' in content
    ensures r.Failure? ==> r.error == IndexError
    ensures r.Success? ==> '\n' !in r.value.0 && r.value.0 + "\n" + r.value.1 == content
  {
    var i := FirstIndex(content, '\n');
    if i < 0 then Failure(IndexError)
    else
      assert content == content[..i] + "\n" + content[i + 1..];
      Success((content[..i], content[i + 1..]))
  }

  /** Joining a one-line subject and a body with a newline and splitting
      again gives them back. */
  lemma {:induction false} TemplateRoundTrip(subject: string, body: string)
    requires '\n' !in subject
    ensures ReadEmailTemplate(subject + "\n" + body) == Success((subject, body))
  {
    var content := subject + "\n" + body;
    assert content[|subject|] == '\n';
    var r := ReadEmailTemplate(content);
    var (s, b) := r.value;
    assert s == subject by {
      assert s == content[..|s|];
      assert subject == content[..|subject|];
    }
    assert b == content[|subject| + 1..];
  }

  /** The body lines of `send_email`: every `#name#` is replaced by the name,
      then every `#department#` in the result by the department code, and the
      beacon tag is appended. */
  function RenderBody(body: string, name: string, department: string): (r: string)
    ensures EndsWith(r, BeaconTag)
  {
    var text := ReplaceAll(ReplaceAll(body, NamePlaceholder, name), DepartmentPlaceholder, department);
    assert EndsWith(text + BeaconTag, BeaconTag) by {
      assert (text + BeaconTag)[|text|..] == BeaconTag;
    }
    text + BeaconTag
  }

  /** A body without placeholders comes back unchanged apart from the one
      appended beacon tag. */
  lemma RenderWithoutPlaceholders(body: string, name: string, department: string)
    requires !Contains(body, NamePlaceholder) && !Contains(body, DepartmentPlaceholder)
    ensures RenderBody(body, name, department) == body + BeaconTag
  {
    ReplaceAllAbsent(body, NamePlaceholder, name);
    ReplaceAllAbsent(body, DepartmentPlaceholder, department);
  }

  /** Substituting the placeholders with themselves gives back the body plus
      the beacon tag. */
  lemma RenderWithPlaceholdersKept(body: string)
    ensures RenderBody(body, NamePlaceholder, DepartmentPlaceholder) == body + BeaconTag
  {
    ReplaceAllSelf(body, NamePlaceholder);
    ReplaceAllSelf(body, DepartmentPlaceholder);
  }

  /** Replacing a placeholder in text without `#` that holds it twice. */
  lemma ReplaceTwice(p: string, m: string, q: string, ph: string, value: string)
    requires ph != [] && ph[0] == '#'
    requires '#' !in p && '#' !in m && '#' !in q
    ensures ReplaceAll(p + ph + m + ph + q, ph, value) == p + value + m + value + q
  {
    var t := m + ph + q;
    assert p + ph + m + ph + q == p + (ph + t);
    assert p + (value + (m + value + q)) == p + value + m + value + q;
    assert ReplaceAll(t, ph, value) == m + value + q by {
      ReplaceOnce(m, q, ph, value);
    }
    assert ReplaceAll(ph + t, ph, value) == value + (m + value + q) by {
      ReplaceAllHead(t, ph, value);
    }
    assert ReplaceAll(p + (ph + t), ph, value) == p + (value + (m + value + q)) by {
      ReplaceAllSkip(p, ph + t, ph, value);
    }
  }

  /** Replacing a placeholder in text without `#` that holds it once. */
  lemma ReplaceOnce(p: string, q: string, ph: string, value: string)
    requires ph != [] && ph[0] == '#'
    requires '#' !in p && '#' !in q
    ensures ReplaceAll(p + ph + q, ph, value) == p + value + q
  {
    assert p + ph + q == p + (ph + q);
    assert p + (value + q) == p + value + q;
    assert ReplaceAll(ph + q, ph, value) == value + q by {
      ReplaceNone(q, ph, value);
      ReplaceAllHead(q, ph, value);
    }
    assert ReplaceAll(p + (ph + q), ph, value) == p + (value + q) by {
      ReplaceAllSkip(p, ph + q, ph, value);
    }
  }

  /** Text without `#` is left alone by either replacement. */
  lemma ReplaceNone(s: string, ph: string, value: string)
    requires ph != [] && ph[0] == '#'
    requires '#' !in s
    ensures ReplaceAll(s, ph, value) == s
  {
    ReplaceAllSkip(s, "", ph, value);
    assert s + "" == s;
  }

  /** Every occurrence of a placeholder is replaced, not only the first: a
      body naming the recipient twice gets the name in both places. */
  lemma RenderReplacesEveryName(p: string, m: string, q: string, name: string, department: string)
    requires '#' !in p && '#' !in m && '#' !in q && '#' !in name
    ensures RenderBody(p + NamePlaceholder + m + NamePlaceholder + q, name, department)
         == p + name + m + name + q + BeaconTag
  {
    ReplaceTwice(p, m, q, NamePlaceholder, name);
    ReplaceNone(p + name + m + name + q, DepartmentPlaceholder, department);
  }

  /** A lone `#` followed by `#`-free text cannot begin `#name#`. */
  lemma LoneHashSurvivesNamePass(q: string, value: string)
    requires '#' !in q
    ensures ReplaceAll("#" + q, NamePlaceholder, value) == "#" + q
  {
    var n := NamePlaceholder;
    var hq := "#" + q;
    assert !OccursAt(hq, n, 0) by {
      if |hq| >= 6 {
        assert hq[5] == q[4];
        assert hq[..6][5] != n[5];
      }
    }
    ReplaceNone(q, n, value);
    ReplaceAllStep('#', q, n, value);
  }

  /** The name pass leaves a `#department#` placeholder, and `#`-free text
      after it, untouched. */
  lemma DepartmentSurvivesNamePass(q: string, value: string)
    requires '#' !in q
    ensures ReplaceAll(DepartmentPlaceholder + q, NamePlaceholder, value) == DepartmentPlaceholder + q
  {
    var n := NamePlaceholder;
    var hq := "#" + q;
    var rest := "department" + hq;
    assert ReplaceAll(rest, n, value) == rest by {
      LoneHashSurvivesNamePass(q, value);
      ReplaceAllSkip("department", hq, n, value);
    }
    assert DepartmentPlaceholder + q == ['#'] + rest;
    assert !OccursAt(['#'] + rest, n, 0) by {
      assert (['#'] + rest)[..6][1] != n[1];
    }
    ReplaceAllStep('#', rest, n, value);
  }

  /** A body with one of each placeholder, as in the welcome template
      `<html><body>Hi #name# from #department#</body></html>`, gets the name
      and the department code in their places. */
  lemma RenderNameAndDepartment(p: string, m: string, q: string, name: string, department: string)
    requires '#' !in p && '#' !in m && '#' !in q && '#' !in name
    ensures RenderBody(p + NamePlaceholder + m + DepartmentPlaceholder + q, name, department)
         == p + name + m + department + q + BeaconTag
  {
    var n, d := NamePlaceholder, DepartmentPlaceholder;
    var t := m + (d + q);
    assert p + n + m + d + q == p + (n + t);
    assert p + (name + t) == (p + name + m) + d + q;
    assert ReplaceAll(t, n, name) == t by {
      DepartmentSurvivesNamePass(q, name);
      ReplaceAllSkip(m, d + q, n, name);
    }
    assert ReplaceAll(p + (n + t), n, name) == p + (name + t) by {
      ReplaceAllHead(t, n, name);
      ReplaceAllSkip(p, n + t, n, name);
    }
    ReplaceOnce(p + name + m, q, d, department);
  }

  /** The replacements are chained: a `#department#` inside the name is
      itself replaced by the department code. */
  lemma RenderSubstitutesInsideName(p: string, q: string, n1: string, n2: string, department: string)
    requires '#' !in p && '#' !in q && '#' !in n1 && '#' !in n2
    ensures RenderBody(p + NamePlaceholder + q, n1 + DepartmentPlaceholder + n2, department)
         == p + n1 + department + n2 + q + BeaconTag
  {
    var d := DepartmentPlaceholder;
    ReplaceOnce(p, q, NamePlaceholder, n1 + d + n2);
    assert p + (n1 + d + n2) + q == (p + n1) + d + (n2 + q);
    ReplaceOnce(p + n1, n2 + q, d, department);
    assert (p + n1) + department + (n2 + q) == p + n1 + department + n2 + q;
  }

  /** `<html><body>Hi #name# from #department#</body></html>`. */
  const WelcomeBody: string := "<html><body>Hi " + NamePlaceholder + " from " + DepartmentPlaceholder + "</body></html>"

  lemma WelcomeTextPieces()
    ensures "<html><body>Hi " + "Ann" + " from " + "X" + "</body></html>" == "<html><body>Hi Ann from X</body></html>"
  {
  }

  /** The welcome template: its first line is the subject and the rest the
      body. */
  lemma WelcomeSplit()
    ensures ReadEmailTemplate("Welcome\n" + WelcomeBody) == Success(("Welcome", WelcomeBody))
  {
    assert '\n' !in "Welcome";
    assert "Welcome\n" + WelcomeBody == "Welcome" + "\n" + WelcomeBody;
    TemplateRoundTrip("Welcome", WelcomeBody);
  }

  /** Rendering the welcome body for Ann of department X names her and her
      department. */
  lemma WelcomeRender()
    ensures RenderBody(WelcomeBody, "Ann", "X") == "<html><body>Hi Ann from X</body></html>" + BeaconTag
  {
    WelcomeTextPieces();
    RenderNameAndDepartment("<html><body>Hi ", " from ", "</body></html>", "Ann", "X");
  }
}
