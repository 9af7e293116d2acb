/**
  The controller's helpers: the ASCII letter test, the title sort-key scan and
  the validation of the `start` and `end` query parameters.
*/
module Helpers {
  import opened Wrappers
  import opened GoStrings
  import opened Strconv

  /** The 26 letters of the English alphabet in order, in lower and upper case. */
  const Alphabet: Bytes :=
    seq(26, k requires 0 <= k < 26 => ('a' as int + k) as char)
    + seq(26, k requires 0 <= k < 26 => ('A' as int + k) as char)

  /** isAlphabetical: the byte is an ASCII letter. */
  function IsAlphabetical(c: byte): bool
  {
    ('a' <= c <= 'z') || ('A' <= c <= 'Z')
  }

  /** isAlphabetical accepts exactly the 52 letters of the alphabet. */
  lemma IsAlphabeticalIsLetter(c: byte)
    ensures IsAlphabetical(c) <==> c in Alphabet
  {
    if 'a' <= c <= 'z' {
      assert Alphabet[c as int - 'a' as int] == c;
    } else if 'A' <= c <= 'Z' {
      assert Alphabet[26 + c as int - 'A' as int] == c;
    }
  }

  /** Bytes of multi-byte UTF-8 sequences (0x80 and above) are never letters. */
  lemma NonAsciiIsNotAlphabetical(c: byte)
    requires c >= '\U{80}'
    ensures !IsAlphabetical(c)
  {
  }

  /** The test table of isAlphabetical. */
  lemma IsAlphabeticalExamples()
    ensures IsAlphabetical('A') && IsAlphabetical('b') && !IsAlphabetical('@')
  {
  }

  /** No letter occurs in `s` at index 1 or later. */
  predicate NoLetterAfterFirst(s: Bytes)
  {
    forall j :: 1 <= j < |s| ==> !IsAlphabetical(s[j])
  }

  /** `k` is the smallest index of at least 1 holding a letter. */
  predicate FirstLetterAfterFirst(s: Bytes, k: int)
  {
    1 <= k < |s| && IsAlphabetical(s[k]) && forall j :: 1 <= j < k ==> !IsAlphabetical(s[j])
  }

  /**
    The loop of findFirstAlphabeticalCharacter from index `i` on: the suffix at
    the first letter at or after `i`, or the whole string when there is none.
  */
  function ScanFrom(s: Bytes, i: nat): (r: Bytes)
    requires 1 <= i
    requires forall j :: 1 <= j < i && j < |s| ==> !IsAlphabetical(s[j])
    ensures IsSuffix(r, s)
    ensures NoLetterAfterFirst(s) ==> r == s
    ensures !NoLetterAfterFirst(s) ==> FirstLetterAfterFirst(s, |s| - |r|)
    decreases |s| - i
  {
    if i >= |s| then s
    else if IsAlphabetical(s[i]) then s[i..]
    else ScanFrom(s, i + 1)
  }

  /**
    findFirstAlphabeticalCharacter: index 0 is skipped; the result is the
    suffix starting at the first letter at index 1 or later, or the input
    unchanged when there is no such letter (in particular when the input has
    fewer than two bytes).
  */
  function FindFirstAlphabeticalCharacter(s: Bytes): (r: Bytes)
    ensures IsSuffix(r, s)
    ensures NoLetterAfterFirst(s) ==> r == s
    ensures !NoLetterAfterFirst(s) ==> FirstLetterAfterFirst(s, |s| - |r|)
  {
    ScanFrom(s, 1)
  }

  /** The result is never longer than the input, and short inputs come back unchanged. */
  lemma FindFirstShortInput(s: Bytes)
    ensures |FindFirstAlphabeticalCharacter(s)| <= |s|
    ensures |s| <= 1 ==> FindFirstAlphabeticalCharacter(s) == s
  {
  }

  /**
    The test table of findFirstAlphabeticalCharacter. The third input is the
    UTF-8 encoding of "❤©♬☂unicode☯∞✿✡♨", written byte by byte.
  */
  lemma FindFirstExamples()
    ensures FindFirstAlphabeticalCharacter("12th Avenue") == "th Avenue"
    ensures FindFirstAlphabeticalCharacter("@!42&characters") == "characters"
    ensures FindFirstAlphabeticalCharacter("     spaces") == "spaces"
  {
    FindFirstDigits();
    FindFirstSymbols();
    FindFirstSpaces();
  }

  lemma FindFirstDigits()
    ensures FindFirstAlphabeticalCharacter("12th Avenue") == "th Avenue"
  {
    var a := "12th Avenue";
    assert IsSuffix("th Avenue", a) && FirstLetterAfterFirst(a, 2);
    ExampleScan(a, "th Avenue");
  }

  lemma FindFirstSymbols()
    ensures FindFirstAlphabeticalCharacter("@!42&characters") == "characters"
  {
    var b := "@!42&characters";
    assert IsSuffix("characters", b) && FirstLetterAfterFirst(b, 5);
    ExampleScan(b, "characters");
  }

  lemma FindFirstSpaces()
    ensures FindFirstAlphabeticalCharacter("     spaces") == "spaces"
  {
    var c := "     spaces";
    assert IsSuffix("spaces", c) && FirstLetterAfterFirst(c, 5);
    ExampleScan(c, "spaces");
  }

  /** Multi-byte UTF-8 characters before the first letter are skipped byte by byte. */
  lemma FindFirstUnicodeExample()
    ensures FindFirstAlphabeticalCharacter(UnicodeSample) == UnicodeSample[11..]
    ensures UnicodeSample[11..18] == "unicode"
  {
    ExampleScan(UnicodeSample, UnicodeSample[11..]);
  }

  /** Bytes of "❤©♬☂unicode☯∞✿✡♨" in UTF-8. */
  const UnicodeSample: Bytes :=
    "\U{E2}\U{9D}\U{A4}\U{C2}\U{A9}\U{E2}\U{99}\U{AC}\U{E2}\U{98}\U{82}unicode"
    + "\U{E2}\U{98}\U{AF}\U{E2}\U{88}\U{9E}\U{E2}\U{9C}\U{BF}\U{E2}\U{9C}\U{A1}\U{E2}\U{99}\U{A8}"

  /** Checks one example against the characterisation of the scan. */
  lemma ExampleScan(s: Bytes, expected: Bytes)
    requires IsSuffix(expected, s) && FirstLetterAfterFirst(s, |s| - |expected|)
    ensures FindFirstAlphabeticalCharacter(s) == expected
  {
    var r := FindFirstAlphabeticalCharacter(s);
    var k := |s| - |expected|;
    assert !NoLetterAfterFirst(s);
    var m := |s| - |r|;
    assert FirstLetterAfterFirst(s, m);
    assert m == k;
  }

  /** url.Values: each key of the query string with the list of its values. */
  type Query = map<Bytes, seq<Bytes>>

  /** url.Values.Has */
  predicate Has(q: Query, key: Bytes)
  {
    key in q
  }

  /** url.Values.Get: the first value of the key, or "" when there is none. */
  function Get(q: Query, key: Bytes): Bytes
  {
    if key in q && |q[key]| > 0 then q[key][0] else ""
  }

  /** The three ways the `start`/`end` parameters can be rejected. */
  datatype ParamError = MissingBounds | StartNotInteger | EndNotInteger

  /** The exact error text sent back for each rejection. */
  function Message(e: ParamError): Bytes
  {
    match e
    case MissingBounds => "please include the starting and ending comic numbers"
    case StartNotInteger => "please make sure that the starting number is an integer"
    case EndNotInteger => "please make sure that the ending number is an integer"
  }

  /**
    getStartEnd: presence of both keys is checked first, then `start` is
    parsed, then `end`; on success the two integers come back as parsed,
    with no check that start <= end.
  */
  function GetStartEnd(q: Query): (r: Result<(Int64, Int64), ParamError>)
    ensures r == Err(MissingBounds) <==> !Has(q, "start") || !Has(q, "end")
    ensures r == Err(StartNotInteger) <==>
      Has(q, "start") && Has(q, "end") && Atoi(Get(q, "start")).None?
    ensures r == Err(EndNotInteger) <==>
      Has(q, "start") && Has(q, "end") && Atoi(Get(q, "start")).Some? && Atoi(Get(q, "end")).None?
    ensures r.Ok? <==>
      Has(q, "start") && Has(q, "end") && Atoi(Get(q, "start")).Some? && Atoi(Get(q, "end")).Some?
    ensures r.Ok? ==> r.value == (Atoi(Get(q, "start")).value, Atoi(Get(q, "end")).value)
  {
    if !Has(q, "start") || !Has(q, "end") then Err(MissingBounds)
    else match Atoi(Get(q, "start"))
      case None => Err(StartNotInteger)
      case Some(start) =>
        match Atoi(Get(q, "end"))
        case None => Err(EndNotInteger)
        case Some(end) => Ok((start, end))
  }

  /**
    A missing key is reported whatever the other parameter holds: presence is
    decided before any value is looked at.
  */
  lemma MissingKeyDominates(q: Query, v: seq<Bytes>)
    requires !Has(q, "start") || !Has(q, "end")
    ensures GetStartEnd(q) == Err(MissingBounds)
    ensures !Has(q, "start") ==> GetStartEnd(q["end" := v]) == Err(MissingBounds)
    ensures !Has(q, "end") ==> GetStartEnd(q["start" := v]) == Err(MissingBounds)
  {
  }

  /**
    An unparseable `start` is reported whatever `end` holds, as long as `end`
    is present: `end` is never parsed before `start`.
  */
  lemma StartCheckedBeforeEnd(q: Query, endValues: seq<Bytes>)
    requires Has(q, "start") && Has(q, "end") && Atoi(Get(q, "start")).None?
    ensures GetStartEnd(q["end" := endValues]) == Err(StartNotInteger)
  {
    assert Get(q["end" := endValues], "start") == Get(q, "start");
  }

  /** The query parameter cases of the controller's tests. */
  lemma GetStartEndExamples()
    ensures GetStartEnd(map[]) == Err(MissingBounds)
    ensures GetStartEnd(map["start" := ["3"]]) == Err(MissingBounds)
    ensures GetStartEnd(map["end" := ["7"]]) == Err(MissingBounds)
    ensures GetStartEnd(map["start" := ["now"], "end" := ["42"]]) == Err(StartNotInteger)
    ensures GetStartEnd(map["start" := ["1"], "end" := ["never"]]) == Err(EndNotInteger)
    ensures GetStartEnd(map["start" := ["40"], "end" := ["42"]]) == Ok((40, 42))
    ensures GetStartEnd(map["start" := [""], "end" := ["42"]]) == Err(StartNotInteger)
  {
    AtoiExamples();
    assert "1"[..0] == "";
    AtoiOfDigits("1", "1", 1);
    BadParameterExamples();
    GoodParameterExample();
  }

  lemma BadParameterExamples()
    requires Atoi("now") == None && Atoi("never") == None && Atoi("") == None && Atoi("1") == Some(1)
    ensures GetStartEnd(map["start" := ["now"], "end" := ["42"]]) == Err(StartNotInteger)
    ensures GetStartEnd(map["start" := ["1"], "end" := ["never"]]) == Err(EndNotInteger)
    ensures GetStartEnd(map["start" := [""], "end" := ["42"]]) == Err(StartNotInteger)
  {
  }

  lemma GoodParameterExample()
    requires Atoi("40") == Some(40) && Atoi("42") == Some(42)
    ensures GetStartEnd(map["start" := ["40"], "end" := ["42"]]) == Ok((40, 42))
  {
  }
}
