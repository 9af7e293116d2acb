/**
  The decode hook the configuration is unmarshalled through
  (pkg/config/envs.go). A list-valued setting reaches the hook as the text
  pflag prints for a string slice, `[a,b,c]`; the hook strips one bracket at
  each end and splits the rest at commas.
*/
module Envs {
  import opened Wrappers
  import opened GoStrings

  /** The raw value handed to the hook, by its dynamic Go type. */
  datatype Data = StringData(s: Bytes) | SliceData(xs: seq<Bytes>) | IntData(i: int) | BoolData(b: bool)

  /**
    The hook's only failure: the `data.(string)` type assertion panics when
    a []string target receives anything other than a string.
  */
  datatype HookPanic = NotAString(data: Data)

  /** The Go type name of the []string target. */
  const SliceType: Bytes := "[]string"

  /** At most one `[` is removed from the front and at most one `]` from the back. */
  function Unbracket(s: Bytes): (t: Bytes)
    ensures "[" <= s && HasSuffix(s[1..], "]") ==> "[" + t + "]" == s
    ensures "[" <= s && !HasSuffix(s[1..], "]") ==> "[" + t == s
    ensures !("[" <= s) && HasSuffix(s, "]") ==> t + "]" == s
    ensures !("[" <= s) && !HasSuffix(s, "]") ==> t == s
  {
    TrimSuffix(TrimPrefix(s, "["), "]")
  }

  /** The list a bracketed text decodes to. */
  function DecodeSlice(s: Bytes): (parts: seq<Bytes>)
    ensures |parts| == Count(Unbracket(s), ',') + 1
    ensures forall i :: 0 <= i < |parts| ==> ',' !in parts[i]
    ensures Join(parts, ",") == Unbracket(s)
  {
    Split(Unbracket(s), ',')
  }

  /**
    DecodeSliceHook: a []string target gets the decoded list, any other
    target gets the data unchanged.
  */
  function DecodeSliceHook(target: Bytes, data: Data): (r: Result<Data, HookPanic>)
    ensures target != SliceType ==> r == Ok(data)
    ensures target == SliceType && !data.StringData? ==> r == Err(NotAString(data))
    ensures target == SliceType && data.StringData? ==>
      r.Ok? && r.value.SliceData? && Join(r.value.xs, ",") == Unbracket(data.s)
      && |r.value.xs| == Count(Unbracket(data.s), ',') + 1
      && forall i :: 0 <= i < |r.value.xs| ==> ',' !in r.value.xs[i]
  {
    if target == SliceType then
      match data
      case StringData(s) => Ok(SliceData(DecodeSlice(s)))
      case _ => Err(NotAString(data))
    else Ok(data)
  }

  /** The text pflag prints for a string slice whose elements need no CSV quoting. */
  function BracketedList(xs: seq<Bytes>): Bytes
  {
    "[" + Join(xs, ",") + "]"
  }

  /** Stripping the brackets of a bracketed text gives back what was inside. */
  lemma UnbracketBracketed(t: Bytes)
    ensures Unbracket("[" + t + "]") == t
  {
    var s := "[" + t + "]";
    assert TrimPrefix(s, "[") == t + "]";
    assert HasSuffix(t + "]", "]");
  }

  /**
    Round trip: a non-empty list of comma-free elements, printed the way
    pflag prints a string slice, decodes to the same list.
  */
  lemma DecodeBracketedList(xs: seq<Bytes>)
    requires |xs| >= 1
    requires forall i :: 0 <= i < |xs| ==> ',' !in xs[i]
    ensures DecodeSlice(BracketedList(xs)) == xs
  {
    UnbracketBracketed(Join(xs, ","));
    SplitJoin(xs, ',');
  }

  /**
    Round trip the other way: decoding a bracketed text and printing the
    result gives the text back.
  */
  lemma BracketedDecode(t: Bytes)
    ensures BracketedList(DecodeSlice("[" + t + "]")) == "[" + t + "]"
  {
    UnbracketBracketed(t);
  }

  /**
    An empty slice does not survive the trip: it prints as `[]`, which
    decodes to a list holding one empty string.
  */
  lemma EmptyListDecodesToEmptyString()
    ensures BracketedList([]) == "[]"
    ensures DecodeSlice(BracketedList([])) == [""]
  {
    UnbracketBracketed("");
    assert "[" + "" + "]" == "[]";
  }

  /** Decoding examples: brackets are optional, only one pair is stripped, spaces are kept. */
  lemma DecodeSliceExamples()
    ensures DecodeSlice("[a,b]") == ["a", "b"]
    ensures DecodeSlice("a,b") == ["a", "b"]
    ensures DecodeSlice("[[a]]") == ["[a]"]
    ensures DecodeSlice("[a b]") == ["a b"]
    ensures DecodeSlice("") == [""]
  {
    BracketedExamples();
    UnbracketedExample();
    assert Split("a,b", ',') == ["a", "b"] by {
      SplitWithoutSeparator("b", ',');
      SplitAfterPiece("a", ',', "b");
      assert "a,b" == "a" + [','] + "b";
    }
    SplitWithoutSeparator("[a]", ',');
    SplitWithoutSeparator("a b", ',');
  }

  lemma BracketedExamples()
    ensures Unbracket("[a,b]") == "a,b" && Unbracket("[[a]]") == "[a]" && Unbracket("[a b]") == "a b"
  {
    UnbracketBracketed("a,b");
    assert "[a,b]" == "[" + "a,b" + "]";
    UnbracketBracketed("[a]");
    assert "[[a]]" == "[" + "[a]" + "]";
    UnbracketBracketed("a b");
    assert "[a b]" == "[" + "a b" + "]";
  }

  lemma UnbracketedExample()
    ensures Unbracket("a,b") == "a,b"
  {
    var s: Bytes := "a,b";
    assert s[0] == 'a' && s[2] == 'b';
    assert !("[" <= s);
    assert s[|s| - 1..] == "b";
  }

  /** Targets other than []string pass through, whatever the data. */
  lemma HookExamples()
    ensures DecodeSliceHook("int", StringData("10")) == Ok(StringData("10"))
    ensures DecodeSliceHook("bool", BoolData(true)) == Ok(BoolData(true))
    ensures DecodeSliceHook(SliceType, StringData("[a,b]")) == Ok(SliceData(["a", "b"]))
    ensures DecodeSliceHook(SliceType, SliceData(["a"])) == Err(NotAString(SliceData(["a"])))
  {
    DecodeSliceExamples();
  }
}
