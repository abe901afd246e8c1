/**
 The backend's "safe JSON extractor": it takes the model's raw reply, cuts out
 the text from the first `[` to the last `]` and hands that slice to
 `JSON.parse`. `JSON.parse` itself is not modelled; every operation here takes
 it as an arbitrary function `parse` from a string to a completion.
 */
module Extractor {
  import JsString

  /** How a JavaScript call ends: with a value, or by throwing an error carrying a message. */
  datatype Completion<T> = Normal(value: T) | Threw(message: string)

  /**
   What the extractor does with a reply before parsing: it either takes the
   error branch (no `[` in the reply), or it computes `start` and `end` and the
   slice between them that goes on to `JSON.parse`.
   */
  datatype Located = NoOpenBracket | Span(start: nat, end: nat, json: string)

  /** The message of the error thrown when the reply has no `[`. */
  const NoArrayMessage: string := "Model did not return valid JSON array"

  const OpenBracket: char := '['
  const CloseBracket: char := ']'

  /**
   The index arithmetic of the extractor, as written: `start` is the first `[`,
   `end` is one past the last `]`, and the guard also tests `end == -1`, a test
   that can never succeed.
   */
  function Locate(text: string): (r: Located)
    // the error branch is taken exactly when there is no `[`; the `end` test adds nothing
    ensures r.NoOpenBracket? <==> OpenBracket !in text
    // the slice starts at the first `[`
    ensures r.Span? ==> r.start < |text| && text[r.start] == OpenBracket
    ensures r.Span? ==> forall i :: 0 <= i < r.start ==> text[i] != OpenBracket
    // `end` is one past the last `]`, or 0 when there is no `]`
    ensures r.Span? ==> r.end <= |text| && (r.end == 0 <==> CloseBracket !in text)
    ensures r.Span? && 0 < r.end ==> text[r.end - 1] == CloseBracket
    ensures r.Span? ==> forall i :: r.end <= i < |text| ==> text[i] != CloseBracket
    // the slice is the contiguous text between them, or empty when `end` is not past `start`
    ensures r.Span? && r.start < r.end ==> r.json == text[r.start..r.end]
    ensures r.Span? && r.start < r.end ==> r.json[0] == OpenBracket && r.json[|r.json| - 1] == CloseBracket
    ensures r.Span? && r.end <= r.start ==> r.json == []
    ensures r.Span? ==> |r.json| <= |text|
  {
    var start := JsString.IndexOf(text, OpenBracket);
    var end := JsString.LastIndexOf(text, CloseBracket) + 1;
    if start == -1 || end == -1 then NoOpenBracket
    else
      JsString.SliceInRange(text, start, end);
      Span(start, end, JsString.Slice(text, start, end))
  }

  /**
   `extractJSON(text)`: throws `NoArrayMessage` when the reply has no `[`;
   otherwise returns whatever `JSON.parse` makes of the slice.
   */
  function ExtractJson<J>(text: string, parse: string -> Completion<J>): (r: Completion<J>)
    ensures OpenBracket !in text ==> r == Threw(NoArrayMessage)
    ensures OpenBracket in text ==> Locate(text).Span? && r == parse(Locate(text).json)
  {
    match Locate(text)
    case NoOpenBracket => Threw(NoArrayMessage)
    case Span(_, _, json) => parse(json)
  }

  /** A `[` right after prose with no `[` is the first `[`. */
  lemma FirstOpenAfterProse(prefix: string, rest: string)
    requires |rest| >= 1 && rest[0] == OpenBracket && OpenBracket !in prefix
    ensures JsString.IndexOf(prefix + rest, OpenBracket) == |prefix|
  {
    var text := prefix + rest;
    forall i | 0 <= i < |prefix|
      ensures text[i] != OpenBracket
    {
      assert text[i] == prefix[i];
      assert prefix[i] in prefix;
    }
    JsString.IndexOfIsFirst(text, OpenBracket, |prefix|);
  }

  /** A `]` right before prose with no `]` is the last `]`. */
  lemma LastCloseBeforeProse(rest: string, suffix: string)
    requires |rest| >= 1 && rest[|rest| - 1] == CloseBracket && CloseBracket !in suffix
    ensures JsString.LastIndexOf(rest + suffix, CloseBracket) == |rest| - 1
  {
    var text := rest + suffix;
    forall i | |rest| <= i < |text|
      ensures text[i] != CloseBracket
    {
      assert text[i] == suffix[i - |rest|];
      assert suffix[i - |rest|] in suffix;
    }
    JsString.LastIndexOfIsLast(text, CloseBracket, |rest| - 1);
  }

  /**
   Prose tolerance: an array wrapped in prose that holds no `[` before it and
   no `]` after it is cut out exactly.
   */
  lemma ProseIsStripped(prefix: string, arr: string, suffix: string)
    requires |arr| >= 1 && arr[0] == OpenBracket && arr[|arr| - 1] == CloseBracket
    requires OpenBracket !in prefix && CloseBracket !in suffix
    ensures Locate(prefix + arr + suffix) == Span(|prefix|, |prefix| + |arr|, arr)
  {
    var text := prefix + arr + suffix;
    assert text == prefix + (arr + suffix);
    FirstOpenAfterProse(prefix, arr + suffix);
    assert text == (prefix + arr) + suffix;
    LastCloseBeforeProse(prefix + arr, suffix);
    var start, end := |prefix|, |prefix| + |arr|;
    assert text[start..end] == arr;
    JsString.SliceInRange(text, start, end);
  }

  /** The body of the one verdict in `ExampleChattyReply`. */
  const ExampleVerdict: string :=
    "{\"rule\":\"Has signature\",\"status\":\"pass\",\"evidence\":\"Signed by J. Doe\","
    + "\"reasoning\":\"Signature block present on page 3\",\"confidence\":92}"

  /** A typical reply: the array is cut out of the chatter around it. */
  lemma ExampleChattyReply<J>(parse: string -> Completion<J>)
    ensures var arr := "[" + ExampleVerdict + "]";
      ExtractJson("Here you go:\n" + arr + "\nLet me know if you need more.", parse) == parse(arr)
  {
    var arr := "[" + ExampleVerdict + "]";
    var prefix, suffix := "Here you go:\n", "\nLet me know if you need more.";
    assert arr[0] == OpenBracket && arr[|arr| - 1] == CloseBracket;
    assert OpenBracket !in prefix;
    assert CloseBracket !in suffix;
    ProseIsStripped(prefix, arr, suffix);
  }

  /** A reply with no brackets at all takes the error branch. */
  lemma ExampleRefusal<J>(parse: string -> Completion<J>)
    ensures ExtractJson("I cannot determine this.", parse) == Threw(NoArrayMessage)
  {
    assert OpenBracket !in "I cannot determine this.";
  }

  /**
   The converse of `ProseIsStripped`: a non-empty slice always splits the reply
   into prose with no `[`, the slice, and prose with no `]`.
   */
  lemma SpanSplitsReply(text: string)
    requires Locate(text).Span? && Locate(text).json != []
    ensures var r := Locate(text);
      && text == text[..r.start] + r.json + text[r.end..]
      && OpenBracket !in text[..r.start]
      && CloseBracket !in text[r.end..]
  {
    var r := Locate(text);
    assert r.start < r.end;
    assert text == text[..r.start] + text[r.start..r.end] + text[r.end..];
    forall c | c in text[..r.start]
      ensures c != OpenBracket
    {
      var i :| 0 <= i < r.start && text[i] == c;
    }
    forall c | c in text[r.end..]
      ensures c != CloseBracket
    {
      var i :| r.end <= i < |text| && text[i] == c;
    }
  }

  /**
   The dead guard: a reply with a `[` but no `]` is not rejected by the
   extractor; the empty string goes to `JSON.parse`, and whatever that throws
   is what the caller sees.
   */
  lemma MissingCloseBracketReachesParse<J>(text: string, parse: string -> Completion<J>)
    requires OpenBracket in text && CloseBracket !in text
    ensures Locate(text).Span? && Locate(text).json == []
    ensures ExtractJson(text, parse) == parse([])
  {
  }

  /** Two concrete replies on which the `end == -1` guard does not fire although no array is there. */
  lemma DeadGuardExamples<J>(parse: string -> Completion<J>)
    ensures Locate("[") == Span(0, 0, [])
    ensures Locate("] [") == Span(2, 1, [])
    ensures ExtractJson("] [", parse) == parse([])
  {
    JsString.IndexOfIsFirst("[", OpenBracket, 0);
    assert CloseBracket !in "[";
    var t := "] [";
    assert t[0] == CloseBracket && t[1] == ' ' && t[2] == OpenBracket;
    JsString.IndexOfIsFirst(t, OpenBracket, 2);
    JsString.LastIndexOfIsLast(t, CloseBracket, 0);
  }

  /** Some `[` in the reply is followed, somewhere later, by a `]`. */
  predicate HasBracketPair(text: string)
  {
    exists i, j :: 0 <= i < j < |text| && text[i] == OpenBracket && text[j] == CloseBracket
  }

  /** A `[` is followed by a `]` exactly when the last `]` lies after the first `[`. */
  lemma BracketPairAroundFirstOpen(text: string)
    ensures HasBracketPair(text) <==>
      (JsString.IndexOf(text, OpenBracket) != -1
       && JsString.IndexOf(text, OpenBracket) < JsString.LastIndexOf(text, CloseBracket))
  {
    var start := JsString.IndexOf(text, OpenBracket);
    var last := JsString.LastIndexOf(text, CloseBracket);
    if HasBracketPair(text) {
      var i, j :| 0 <= i < j < |text| && text[i] == OpenBracket && text[j] == CloseBracket;
      assert text[i] in text;
      assert start <= i;
      assert j <= last;
    }
    if start != -1 && start < last {
      assert text[start] == OpenBracket && text[last] == CloseBracket;
    }
  }

  /**
   The extractor as its guard evidently intends it: the error branch is also
   taken when no `]` follows the first `[`, so `JSON.parse` only ever receives a
   slice that opens with `[` and closes with `]`.
   */
  function LocateStrict(text: string): (r: Located)
    ensures r.NoOpenBracket? <==> !HasBracketPair(text)
    // the slice still runs from the first `[` to the last `]`
    ensures r.Span? ==> r.start == JsString.IndexOf(text, OpenBracket)
    ensures r.Span? ==> r.end == JsString.LastIndexOf(text, CloseBracket) + 1
    ensures r.Span? ==> r.start < r.end <= |text| && r.json == text[r.start..r.end]
    ensures r.Span? ==> |r.json| >= 2 && r.json[0] == OpenBracket && r.json[|r.json| - 1] == CloseBracket
  {
    var start := JsString.IndexOf(text, OpenBracket);
    var last := JsString.LastIndexOf(text, CloseBracket);
    BracketPairAroundFirstOpen(text);
    if start == -1 || last < start then NoOpenBracket
    else
      var json := JsString.Slice(text, start, last + 1);
      JsString.SliceInRange(text, start, last + 1);
      assert json[0] == text[start] && json[|json| - 1] == text[last];
      Span(start, last + 1, json)
  }

  /**
   `extractJSON` with the corrected guard: a reply in which no `]` follows a
   `[` throws the no-array error, and any other reply has the text from its
   first `[` through its last `]` parsed.
   */
  function ExtractJsonStrict<J>(text: string, parse: string -> Completion<J>): (r: Completion<J>)
    ensures !HasBracketPair(text) ==> r == Threw(NoArrayMessage)
    ensures HasBracketPair(text) ==>
      var start, end := JsString.IndexOf(text, OpenBracket), JsString.LastIndexOf(text, CloseBracket) + 1;
      0 <= start < end <= |text| && r == parse(text[start..end])
  {
    match LocateStrict(text)
    case NoOpenBracket => Threw(NoArrayMessage)
    case Span(_, _, json) => parse(json)
  }

  /** The corrected extractor agrees with the original wherever the original slice is not empty. */
  lemma StrictAgreesOnArrays<J>(text: string, parse: string -> Completion<J>)
    requires Locate(text).Span? && Locate(text).json != []
    ensures LocateStrict(text) == Locate(text)
    ensures ExtractJsonStrict(text, parse) == ExtractJson(text, parse)
  {
  }

  /** The corrected extractor rejects the replies that slipped past the original guard. */
  lemma StrictRejectsEmptySlice(text: string)
    requires Locate(text).Span? && Locate(text).json == []
    ensures LocateStrict(text) == NoOpenBracket
  {
  }
}
