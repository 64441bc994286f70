/**
 * The student record of models.py, reduced to the two pure conversions the
 * matching engine consumes: `get_hobbies_list` (split the stored
 * comma-separated hobby string, trim and lower-case every piece) and
 * `to_vector` (the attribute vector handed to the similarity engine).
 * Characters are treated as ASCII: Python's Unicode-aware `strip()` and
 * `lower()` are modelled on the ASCII range only.
 */
module Students {
  import opened Wrappers

  /** A stored student row (the persisted columns that `to_vector` reads). */
  datatype StudentRecord = StudentRecord(
    id: int,
    name: string,
    sleepTime: int,       // 0 early, 1 medium, 2 late
    studyTime: int,       // 0 morning, 1 afternoon, 2 evening, 3 night
    cleanliness: int,     // 1..5
    noiseTolerance: int,  // 1..5
    personality: int,     // 0 introvert, 1 ambivert, 2 extrovert
    hobbies: Option<string>)

  /** The vector the similarity engine works on. */
  datatype StudentVector = StudentVector(
    id: int,
    name: string,
    sleepTime: int,
    studyTime: int,
    cleanliness: int,
    noiseTolerance: int,
    personality: int,
    hobbies: seq<string>)

  /** The documented ranges of the five lifestyle attributes. */
  predicate InRange(v: StudentVector) {
    && 0 <= v.sleepTime <= 2
    && 0 <= v.studyTime <= 3
    && 1 <= v.cleanliness <= 5
    && 1 <= v.noiseTolerance <= 5
    && 0 <= v.personality <= 2
  }

  // ---------------------------------------------------------------------
  // Characters

  /** ASCII characters that Python's `str.strip()` removes. */
  predicate IsSpace(c: char) {
    var k := c as int;
    (9 <= k <= 13) || (28 <= k <= 32)
  }

  predicate IsUpper(c: char) {
    'A' <= c <= 'Z'
  }

  /** ASCII `lower()` of one character. */
  function LowerChar(c: char): (r: char)
    ensures !IsUpper(r)
    ensures IsSpace(r) == IsSpace(c)
    ensures !IsUpper(c) ==> r == c
  {
    if IsUpper(c) then (c as int + 32) as char else c
  }

  /** ASCII `lower()` of a string. */
  function Lower(s: string): (r: string)
    ensures |r| == |s|
    ensures forall i :: 0 <= i < |r| ==> r[i] == LowerChar(s[i])
  {
    if s == [] then [] else [LowerChar(s[0])] + Lower(s[1..])
  }

  // ---------------------------------------------------------------------
  // strip()

  function StripLeft(s: string): (r: string)
    ensures |r| <= |s| && r == s[|s| - |r|..]
    ensures forall k :: 0 <= k < |s| - |r| ==> IsSpace(s[k])
    ensures r == [] || !IsSpace(r[0])
  {
    if s != [] && IsSpace(s[0]) then StripLeft(s[1..]) else s
  }

  function StripRight(s: string): (r: string)
    ensures |r| <= |s| && r == s[..|r|]
    ensures forall k :: |r| <= k < |s| ==> IsSpace(s[k])
    ensures r == [] || !IsSpace(r[|r| - 1])
  {
    if s != [] && IsSpace(s[|s| - 1]) then StripRight(s[..|s| - 1]) else s
  }

  /** Python's `str.strip()` with no argument (ASCII whitespace). */
  function Strip(s: string): string {
    StripRight(StripLeft(s))
  }

  /** `r` is `s[i..j]` and everything of `s` outside `i..j` is whitespace. */
  predicate TrimmedAt(s: string, r: string, i: int, j: int) {
    && 0 <= i <= j <= |s| && r == s[i..j]
    && (forall k :: 0 <= k < i ==> IsSpace(s[k]))
    && (forall k :: j <= k < |s| ==> IsSpace(s[k]))
  }

  /** `strip()` keeps the slice between the leading and the trailing whitespace run. */
  lemma StripTrimmed(s: string)
    ensures TrimmedAt(s, Strip(s), |s| - |StripLeft(s)|, |s| - |StripLeft(s)| + |Strip(s)|)
  {
    var l := StripLeft(s);
    var i := |s| - |l|;
    var j := i + |Strip(s)|;
    assert Strip(s) == s[i..j];
    forall k | j <= k < |s| ensures IsSpace(s[k]) {
      assert s[k] == l[k - i];
    }
  }

  /** What `strip()` promises: it removes a run of whitespace at each end and nothing else. */
  lemma StripSpec(s: string)
    ensures exists i, j :: TrimmedAt(s, Strip(s), i, j)
    ensures Strip(s) == [] || (!IsSpace(Strip(s)[0]) && !IsSpace(Strip(s)[|Strip(s)| - 1]))
  {
    StripTrimmed(s);
    var l := StripLeft(s);
    if Strip(s) != [] {
      assert Strip(s)[0] == l[0];
    }
  }

  // ---------------------------------------------------------------------
  // split(',')

  function CountChar(s: string, c: char): nat {
    if s == [] then 0 else (if s[0] == c then 1 else 0) + CountChar(s[1..], c)
  }

  /** Python's `s.split(',')`: the pieces between commas, empty pieces kept. */
  function SplitCommas(s: string): (r: seq<string>)
    ensures |r| >= 1
  {
    if s == [] then [""]
    else if s[0] == ',' then [""] + SplitCommas(s[1..])
    else var t := SplitCommas(s[1..]); [[s[0]] + t[0]] + t[1..]
  }

  /** `','.join(pieces)`, the inverse of `SplitCommas`. */
  function JoinCommas(pieces: seq<string>): string
    requires |pieces| >= 1
  {
    if |pieces| == 1 then pieces[0] else pieces[0] + "," + JoinCommas(pieces[1..])
  }

  /** Splitting yields one piece more than there are commas. */
  lemma {:induction false} SplitCommasCount(s: string)
    ensures |SplitCommas(s)| == CountChar(s, ',') + 1
  {
    if s != [] {
      SplitCommasCount(s[1..]);
    }
  }

  /** No piece contains a comma. */
  lemma {:induction false} SplitCommasNoComma(s: string)
    ensures forall i :: 0 <= i < |SplitCommas(s)| ==> ',' !in SplitCommas(s)[i]
  {
    if s != [] {
      SplitCommasNoComma(s[1..]);
      var t := SplitCommas(s[1..]);
      var r := SplitCommas(s);
      if s[0] == ',' {
        assert r == [""] + t;
        forall i | 0 <= i < |r| ensures ',' !in r[i] {
          if i > 0 { assert r[i] == t[i - 1]; }
        }
      } else {
        assert r == [[s[0]] + t[0]] + t[1..];
        forall i | 0 <= i < |r| ensures ',' !in r[i] {
          if i > 0 { assert r[i] == t[i]; }
        }
      }
    }
  }

  /** Joining the pieces with commas gives back the input. */
  lemma {:induction false} SplitCommasJoin(s: string)
    ensures JoinCommas(SplitCommas(s)) == s
  {
    if s != [] {
      SplitCommasJoin(s[1..]);
      assert s == [s[0]] + s[1..];
      if s[0] == ',' {
        JoinAfterComma(s);
      } else {
        JoinAfterChar(s);
      }
    }
  }

  /** Induction step of `SplitCommasJoin` for a leading comma. */
  lemma JoinAfterComma(s: string)
    requires s != [] && s[0] == ','
    ensures JoinCommas(SplitCommas(s)) == [','] + JoinCommas(SplitCommas(s[1..]))
  {
    var t := SplitCommas(s[1..]);
    var r := SplitCommas(s);
    assert r == [""] + t;
    assert r[1..] == t;
  }

  /** Induction step of `SplitCommasJoin` for a leading ordinary character. */
  lemma JoinAfterChar(s: string)
    requires s != [] && s[0] != ','
    ensures JoinCommas(SplitCommas(s)) == [s[0]] + JoinCommas(SplitCommas(s[1..]))
  {
    var t := SplitCommas(s[1..]);
    var r := SplitCommas(s);
    var c := s[0];
    assert r == [[c] + t[0]] + t[1..];
    if |t| > 1 {
      var rest := JoinCommas(t[1..]);
      assert r[1..] == t[1..];
      assert JoinCommas(r) == ([c] + t[0]) + "," + rest;
      assert ([c] + t[0]) + "," + rest == [c] + (t[0] + "," + rest);
    }
  }

  // ---------------------------------------------------------------------
  // get_hobbies_list and to_vector

  /** One hobby entry: `h.strip().lower()`. */
  function Normalize(piece: string): string {
    Lower(Strip(piece))
  }

  /** `Student.get_hobbies_list`: empty or missing text gives no hobbies. */
  function HobbiesList(hobbies: Option<string>): (r: seq<string>)
    ensures hobbies.None? || hobbies.value == "" ==> r == []
    ensures hobbies.Some? && hobbies.value != "" ==>
      |r| == |SplitCommas(hobbies.value)|
      && forall i :: 0 <= i < |r| ==> r[i] == Normalize(SplitCommas(hobbies.value)[i])
  {
    match hobbies
    case None => []
    case Some(text) =>
      if text == "" then []
      else
        var pieces := SplitCommas(text);
        seq(|pieces|, i requires 0 <= i < |pieces| => Normalize(pieces[i]))
  }

  /** An entry of the hobby list has no surrounding whitespace and no upper-case letter. */
  predicate IsNormalized(h: string) {
    && (h == [] || (!IsSpace(h[0]) && !IsSpace(h[|h| - 1])))
    && forall k :: 0 <= k < |h| ==> !IsUpper(h[k])
  }

  /**
   * The hobby list has one entry per comma-separated piece, in order
   * (so duplicates are kept), and each entry is that piece trimmed and
   * lower-cased.
   */
  lemma HobbiesListSpec(text: string)
    requires text != ""
    ensures |HobbiesList(Some(text))| == CountChar(text, ',') + 1
    ensures forall i :: 0 <= i < |HobbiesList(Some(text))| ==>
      IsNormalized(HobbiesList(Some(text))[i])
      && HobbiesList(Some(text))[i] == Lower(Strip(SplitCommas(text)[i]))
  {
    SplitCommasCount(text);
    var r := HobbiesList(Some(text));
    forall i | 0 <= i < |r| ensures IsNormalized(r[i]) {
      NormalizeIsNormalized(SplitCommas(text)[i]);
    }
  }

  /** A trimmed, lower-cased piece is normalised. */
  lemma NormalizeIsNormalized(piece: string)
    ensures IsNormalized(Normalize(piece))
  {
    var l := StripLeft(piece);
    var t := StripRight(l);
    var n := Lower(t);
    if t != [] {
      assert t[0] == l[0];
      assert n[0] == LowerChar(t[0]);
      assert n[|n| - 1] == LowerChar(t[|t| - 1]);
    }
  }

  lemma HobbiesNormalized(hobbies: Option<string>)
    ensures forall i :: 0 <= i < |HobbiesList(hobbies)| ==> IsNormalized(HobbiesList(hobbies)[i])
  {
    if hobbies.Some? && hobbies.value != "" { HobbiesListSpec(hobbies.value); }
  }

  /** `Student.to_vector`: the identity and attributes unchanged, hobbies parsed. */
  function ToVector(s: StudentRecord): (v: StudentVector)
    ensures v.id == s.id && v.name == s.name
    ensures v.sleepTime == s.sleepTime && v.studyTime == s.studyTime
    ensures v.cleanliness == s.cleanliness && v.noiseTolerance == s.noiseTolerance
    ensures v.personality == s.personality
    ensures v.hobbies == HobbiesList(s.hobbies)
    ensures forall i :: 0 <= i < |v.hobbies| ==> IsNormalized(v.hobbies[i])
  {
    HobbiesNormalized(s.hobbies);
    StudentVector(s.id, s.name, s.sleepTime, s.studyTime, s.cleanliness,
                  s.noiseTolerance, s.personality, HobbiesList(s.hobbies))
  }
}
