/** The two file validators run before sending: the template check
    `check_txt_file_extension` and the header check `check_csv_file_validity`.
    A file is given by its already-read contents, `None` when it does not
    exist. */
module Validation {
  import opened Wrappers
  import opened Strings

  /** The markers a template must contain, in this relative order. */
  const RequiredElements: seq<string> :=
    ["<html>", "<body>", "#name#", "#department#", "</body>", "</html>"]

  /** The header names the recipient file must begin with. */
  const ExpectedFields: seq<string> := ["email", "name", "department_code"]

  /** The markers `ms` occur in `s` at non-decreasing positions, the first at
      or after `start`. Consecutive markers may share their start or overlap. */
  ghost predicate ChainFrom(s: string, ms: seq<string>, start: int)
    decreases |ms|
  {
    |ms| == 0 || exists i :: start <= i && OccursAt(s, ms[0], i) && ChainFrom(s, ms[1..], i)
  }

  /** `pos` lists positions, one per marker, at which the markers occur, all at
      or after `start` and in non-decreasing order. */
  ghost predicate IsChain(s: string, ms: seq<string>, start: int, pos: seq<int>) {
    && |pos| == |ms|
    && (forall k :: 0 <= k < |ms| ==> start <= pos[k] && OccursAt(s, ms[k], pos[k]))
    && (forall a, b :: 0 <= a <= b < |pos| ==> pos[a] <= pos[b])
  }

  /** A recursive chain yields explicit positions. */
  lemma {:induction false} ChainToPositions(s: string, ms: seq<string>, start: int)
    requires ChainFrom(s, ms, start)
    ensures exists pos :: IsChain(s, ms, start, pos)
    decreases |ms|
  {
    if |ms| == 0 {
      assert IsChain(s, ms, start, []);
    } else {
      var i :| start <= i && OccursAt(s, ms[0], i) && ChainFrom(s, ms[1..], i);
      ChainToPositions(s, ms[1..], i);
      var rest :| IsChain(s, ms[1..], i, rest);
      var pos := [i] + rest;
      forall k | 1 <= k < |ms|
        ensures start <= pos[k] && OccursAt(s, ms[k], pos[k])
      {
        assert pos[k] == rest[k - 1] && ms[k] == ms[1..][k - 1];
      }
      forall a, b | 0 <= a <= b < |pos|
        ensures pos[a] <= pos[b]
      {
        if a > 0 {
          assert pos[a] == rest[a - 1] && pos[b] == rest[b - 1];
        } else if b > 0 {
          assert pos[b] == rest[b - 1];
        }
      }
      assert IsChain(s, ms, start, pos);
    }
  }

  /** Explicit positions yield a recursive chain. */
  lemma {:induction false} PositionsToChain(s: string, ms: seq<string>, start: int, pos: seq<int>)
    requires IsChain(s, ms, start, pos)
    ensures ChainFrom(s, ms, start)
    decreases |ms|
  {
    if |ms| > 0 {
      var rest := pos[1..];
      forall k | 0 <= k < |rest|
        ensures pos[0] <= rest[k] && OccursAt(s, ms[1..][k], rest[k])
      {
        assert rest[k] == pos[k + 1] && ms[1..][k] == ms[k + 1];
      }
      forall a, b | 0 <= a <= b < |rest|
        ensures rest[a] <= rest[b]
      {
        assert rest[a] == pos[a + 1] && rest[b] == pos[b + 1];
      }
      assert IsChain(s, ms[1..], pos[0], rest);
      PositionsToChain(s, ms[1..], pos[0], rest);
      assert start <= pos[0] && OccursAt(s, ms[0], pos[0]);
    }
  }

  /** The recursive reading of a chain agrees with the explicit one. */
  lemma ChainFromIffPositions(s: string, ms: seq<string>, start: int)
    ensures ChainFrom(s, ms, start) <==> exists pos :: IsChain(s, ms, start, pos)
  {
    if ChainFrom(s, ms, start) {
      ChainToPositions(s, ms, start);
    }
    if pos :| IsChain(s, ms, start, pos) {
      PositionsToChain(s, ms, start, pos);
    }
  }

  /** A chain that may begin at `b` may also begin anywhere earlier. */
  lemma ChainFromEarlier(s: string, ms: seq<string>, a: int, b: int)
    requires a <= b && ChainFrom(s, ms, b)
    ensures ChainFrom(s, ms, a)
  {
    if |ms| > 0 {
      var i :| b <= i && OccursAt(s, ms[0], i) && ChainFrom(s, ms[1..], i);
      assert a <= i;
    }
  }

  /** Taking the leftmost occurrence of the first marker loses no chain: the
      greedy scan is complete. */
  lemma GreedyStep(s: string, ms: seq<string>, start: nat)
    requires |ms| > 0
    ensures Find(s, ms[0], start) == -1 ==> !ChainFrom(s, ms, start)
    ensures Find(s, ms[0], start) >= 0 ==>
      (ChainFrom(s, ms, start) <==> ChainFrom(s, ms[1..], Find(s, ms[0], start)))
  {
    var r := Find(s, ms[0], start);
    if ChainFrom(s, ms, start) {
      var i :| start <= i && OccursAt(s, ms[0], i) && ChainFrom(s, ms[1..], i);
      assert r >= 0 && r <= i;
      ChainFromEarlier(s, ms[1..], r, i);
    }
  }

  /** `check_txt_file_extension`: the path must end in `.txt`, the file must
      exist, and a forward scan must find every required marker, each search
      starting where the previous marker was found (not after it). */
  method CheckTxtFileExtension(path: string, file: Option<string>) returns (ok: bool)
    ensures ok ==> EndsWith(path, ".txt") && file.Some? && ChainFrom(file.value, RequiredElements, 0)
    ensures EndsWith(path, ".txt") && file.Some? && ChainFrom(file.value, RequiredElements, 0) ==> ok
  {
    if !EndsWith(path, ".txt") {
      return false;
    }
    if file.None? {
      return false;
    }
    var content := file.value;
    var startIndex := 0;
    var flag := false;
    for k := 0 to |RequiredElements|
      invariant !flag ==> startIndex >= 0
      invariant !flag ==>
        (ChainFrom(content, RequiredElements, 0) <==> ChainFrom(content, RequiredElements[k..], startIndex))
      invariant flag ==> !ChainFrom(content, RequiredElements, 0)
    {
      if !flag {
        GreedyStep(content, RequiredElements[k..], startIndex);
        assert RequiredElements[k..][1..] == RequiredElements[k + 1..];
      }
      startIndex := Find(content, RequiredElements[k], startIndex);
      if startIndex == -1 {
        flag := true;
      }
    }
    return !flag;
  }

  /** An occurrence of `m` at `i` fixes the characters of `s` there. */
  lemma OccurrencePrefix(s: string, m: string, i: int, n: nat)
    ensures OccursAt(s, m, i) && n <= |m| ==> m[..n] == s[i..i + n]
  {
    if OccursAt(s, m, i) && n <= |m| {
      assert m[..n] == s[i..i + |m|][..n];
    }
  }

  /** Although the scan lets adjacent markers overlap, no required marker can
      occur at the index where the previous one occurs: each adjacent pair
      differs within its first three characters. */
  lemma AdjacentMarkersNeverShareStart(s: string, k: nat, i: int)
    requires k + 1 < |RequiredElements|
    ensures !(OccursAt(s, RequiredElements[k], i) && OccursAt(s, RequiredElements[k + 1], i))
  {
    var a, b := RequiredElements[k], RequiredElements[k + 1];
    assert a[..3] != b[..3] by {
      if k == 0 {
        assert a[..3] == "<ht" && b[..3] == "<bo";
      } else if k == 1 {
        assert a[..3] == "<bo" && b[..3] == "#na";
      } else if k == 2 {
        assert a[..3] == "#na" && b[..3] == "#de";
      } else if k == 3 {
        assert a[..3] == "#de" && b[..3] == "</b";
      } else {
        assert a[..3] == "</b" && b[..3] == "</h";
      }
    }
    OccurrencePrefix(s, a, i, 3);
    OccurrencePrefix(s, b, i, 3);
  }

  /** A template whose every `</html>` comes before every `<html>` is
      rejected, however the other markers are placed. */
  lemma ClosingBeforeOpeningRejected(s: string)
    requires forall i, j :: OccursAt(s, "<html>", i) && OccursAt(s, "</html>", j) ==> j < i
    ensures !ChainFrom(s, RequiredElements, 0)
  {
    if ChainFrom(s, RequiredElements, 0) {
      ChainToPositions(s, RequiredElements, 0);
    }
  }

  /** The template of the overlap example, assembled piece by piece: the
      `#` that closes `#name#` is the one that opens `#department#`. */
  function SharedCharacterTemplate(): (s: string)
    ensures s == "<html><body>#name#department#</body></html>"
  {
    "<html>" + ("<body>" + ("#name" + ("#department#" + ("</body>" + "</html>"))))
  }

  lemma SharedCharacterPositions()
    ensures var s, m := SharedCharacterTemplate(), RequiredElements;
      && OccursAt(s, m[0], 0) && OccursAt(s, m[1], 6) && OccursAt(s, m[2], 12)
      && OccursAt(s, m[3], 17) && OccursAt(s, m[4], 29) && OccursAt(s, m[5], 36)
  {
    var a, b, c, d, e, f := "<html>", "<body>", "#name", "#department#", "</body>", "</html>";
    var t4 := e + f;
    var t3 := d + t4;
    var t2 := c + t3;
    var t1 := b + t2;
    OccursFront(a, t1);
    OccursFront(b, t2);
    OccursShift(a, t1, b, 0);
    assert OccursAt(t2, "#name#", 0) by {
      assert t2[..6] == c + d[..1];
    }
    OccursShift(b, t2, "#name#", 0);
    OccursShift(a, t1, "#name#", 6);
    OccursFront(d, t4);
    OccursShift(c, t3, d, 0);
    OccursShift(b, t2, d, 5);
    OccursShift(a, t1, d, 11);
    OccursFront(e, f);
    OccursShift(d, t4, e, 0);
    OccursShift(c, t3, e, 12);
    OccursShift(b, t2, e, 17);
    OccursShift(a, t1, e, 23);
    assert OccursAt(f, f, 0) by { assert f[0..|f|] == f; }
    OccursShift(e, f, f, 0);
    OccursShift(d, t4, f, 7);
    OccursShift(c, t3, f, 19);
    OccursShift(b, t2, f, 24);
    OccursShift(a, t1, f, 30);
  }

  /** Adjacent markers may share characters: the `#` closing `#name#` also
      opens `#department#`, and the template is accepted. */
  lemma SharedCharacterAccepted()
    ensures ChainFrom("<html><body>#name#department#</body></html>", RequiredElements, 0)
  {
    var s := SharedCharacterTemplate();
    var pos := [0, 6, 12, 17, 29, 36];
    SharedCharacterPositions();
    assert IsChain(s, RequiredElements, 0, pos);
    PositionsToChain(s, RequiredElements, 0, pos);
  }

  /** The first line of a recipient file as `csv.DictReader` reports it: no
      names at all for an empty file, else the list of names. */
  datatype CsvHeader = EmptyFile | Header(fieldNames: seq<string>)

  /** Python's `names[:3]`. */
  function Take3(names: seq<string>): (r: seq<string>)
    ensures |names| <= 3 ==> r == names
    ensures |names| > 3 ==> r == names[..3]
  {
    if |names| <= 3 then names else names[..3]
  }

  /** `check_csv_file_validity`: the path must end in `.csv`, the file must
      exist, and its first three header names must be exactly `email`, `name`,
      `department_code` in that order. An empty file has no header names at
      all, and slicing them raises `TypeError`. */
  function CheckCsvFileValidity(path: string, file: Option<CsvHeader>): (r: Result<bool, Error>)
    ensures r.Failure? <==> EndsWith(path, ".csv") && file == Some(EmptyFile)
    ensures r.Failure? ==> r.error == TypeError
    ensures r == Success(true) <==>
      && EndsWith(path, ".csv")
      && file.Some? && file.value.Header?
      && |file.value.fieldNames| >= 3
      && file.value.fieldNames[..3] == ExpectedFields
  {
    if !EndsWith(path, ".csv") then Success(false)
    else if file.None? then Success(false)
    else match file.value
      case EmptyFile => Failure(TypeError)
      case Header(names) => Success(Take3(names) == ExpectedFields)
  }

  /** Extra trailing columns are tolerated. */
  lemma TrailingColumnsAccepted(path: string, extra: seq<string>)
    requires EndsWith(path, ".csv")
    ensures CheckCsvFileValidity(path, Some(Header(ExpectedFields + extra))) == Success(true)
  {
    assert (ExpectedFields + extra)[..3] == ExpectedFields;
  }

  /** A header with fewer than three names is rejected. */
  lemma ShortHeaderRejected(path: string, names: seq<string>)
    requires |names| < 3
    ensures CheckCsvFileValidity(path, Some(Header(names))) == Success(false)
  {
  }
}
