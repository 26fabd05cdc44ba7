/** The `{label}` markup of the multi-style tab: the parser that cuts a script
    into (style, text) segments, the "Insert Label" buttons and the check that
    switches the Generate button on and off. */
module SpeechTypes {
  import opened Strings

  /** The style in force before the first marker. */
  const Regular := "Regular"

  /** The number of speech-type rows the tab offers (the regular one and 99 more). */
  const MaxSpeechTypes := 100

  datatype Segment = Segment(style: string, text: string)

  // ---------------------------------------------------------------------------
  // re.split(r"\{(.*?)\}", s)
  // ---------------------------------------------------------------------------

  /** The pattern `\{(.*?)\}` matches at p: a '{' that is followed, before any
      newline, by a '}' ('.' does not match a newline). */
  ghost predicate MarkerAt(s: string, p: int) {
    && 0 <= p < |s| && s[p] == '{'
    && exists q :: p < q < |s| && s[q] == '}' && forall j :: p < j < q ==> s[j] != '\n'
  }

  /** What the group `(.*?)` can capture: no '}' (the lazy match stops at the
      first one) and no newline. */
  predicate IsLabel(l: string) {
    forall j :: 0 <= j < |l| ==> l[j] != '}' && l[j] != '\n'
  }

  /** The lazy `.*?\}` run from k: the position of the first '}', unless a
      newline comes first or there is none. */
  function CloseFrom(s: string, k: nat): (r: Option<nat>)
    requires k <= |s|
    decreases |s| - k
    ensures r.Some? ==> k <= r.value < |s| && s[r.value] == '}'
    ensures r.Some? ==> forall j :: k <= j < r.value ==> s[j] != '}' && s[j] != '\n'
    ensures r.None? ==> forall q :: k <= q < |s| && s[q] == '}' ==> exists j :: k <= j < q && s[j] == '\n'
  {
    if k == |s| then None
    else if s[k] == '}' then Some(k)
    else if s[k] == '\n' then None
    else CloseFrom(s, k + 1)
  }

  /** The leftmost match of the pattern at or after i: the '{' and the '}' that ends it. */
  function FindMarker(s: string, i: nat): (r: Option<(nat, nat)>)
    requires i <= |s|
    decreases |s| - i
    ensures r.Some? ==> i <= r.value.0 < r.value.1 < |s| && MarkerAt(s, r.value.0) && s[r.value.1] == '}'
    ensures r.Some? ==> forall j :: r.value.0 < j < r.value.1 ==> s[j] != '}' && s[j] != '\n'
    ensures r.Some? ==> forall p :: i <= p < r.value.0 ==> !MarkerAt(s, p)
    ensures r.None? ==> forall p :: i <= p < |s| ==> !MarkerAt(s, p)
  {
    if i == |s| then None
    else if s[i] == '{' && CloseFrom(s, i + 1).Some? then Some((i, CloseFrom(s, i + 1).value))
    else FindMarker(s, i + 1)
  }

  /** re.split with the one-group pattern: text, label, text, ..., text. */
  function Split(s: string): (tokens: seq<string>)
    decreases |s|
    ensures |tokens| % 2 == 1
    ensures forall k :: 0 <= k < |tokens| && k % 2 == 1 ==> IsLabel(tokens[k])
  {
    match FindMarker(s, 0)
    case None => [s]
    case Some((p, q)) =>
      var rest := Split(s[q + 1..]);
      CaptureIsLabel(s, p, q);
      ConsTokens(s[..p], s[p + 1..q], rest, [s[..p], s[p + 1..q]] + rest);
      [s[..p], s[p + 1..q]] + rest
  }

  /** What lies strictly between the braces of a match is a possible capture. */
  lemma CaptureIsLabel(s: string, p: nat, q: nat)
    requires p < q <= |s|
    requires forall j :: p < j < q ==> s[j] != '}' && s[j] != '\n'
    ensures IsLabel(s[p + 1..q])
  {
    var l := s[p + 1..q];
    forall j | 0 <= j < |l| ensures l[j] != '}' && l[j] != '\n' {
      assert l[j] == s[p + 1 + j];
    }
  }

  /** A text and a label in front of a split keep tokens alternating. */
  lemma ConsTokens(t: string, l: string, rest: seq<string>, tokens: seq<string>)
    requires tokens == [t, l] + rest
    requires IsLabel(l)
    requires |rest| % 2 == 1
    requires forall k :: 0 <= k < |rest| && k % 2 == 1 ==> IsLabel(rest[k])
    ensures |tokens| % 2 == 1
    ensures forall k :: 0 <= k < |tokens| && k % 2 == 1 ==> IsLabel(tokens[k])
  {
    forall k | 0 <= k < |tokens| && k % 2 == 1 ensures IsLabel(tokens[k]) {
      if k >= 2 {
        assert tokens[k] == rest[k - 2];
        assert (k - 2) % 2 == 1;
      }
    }
  }

  /** Puts the braces back: the inverse of Split. */
  function Join(tokens: seq<string>): string
    requires |tokens| % 2 == 1
  {
    if |tokens| == 1 then tokens[0]
    else tokens[0] + "{" + tokens[1] + "}" + Join(tokens[2..])
  }

  lemma Reassemble(s: string, p: nat, q: nat)
    requires p < q < |s|
    ensures s[..q + 1] == s[..p] + [s[p]] + s[p + 1..q] + [s[q]]
    ensures s == s[..q + 1] + s[q + 1..]
  {
  }

  /** Nothing is lost by splitting: the tokens joined with their braces are the input. */
  lemma {:induction false} SplitJoin(s: string)
    decreases |s|
    ensures Join(Split(s)) == s
  {
    match FindMarker(s, 0)
    case None =>
    case Some((p, q)) =>
      var rest := s[q + 1..];
      SplitJoin(rest);
      Reassemble(s, p, q);
      assert Split(s)[2..] == Split(rest);
  }

  /** A match inside a prefix is a match in the whole string. */
  lemma MarkerExtends(u: string, s: string, p: int)
    requires |u| <= |s| && u == s[..|u|]
    ensures MarkerAt(u, p) ==> MarkerAt(s, p)
  {
    if MarkerAt(u, p) {
      var q :| p < q < |u| && u[q] == '}' && forall j :: p < j < q ==> u[j] != '\n';
      assert s[q] == '}';
      assert forall j :: p < j < q ==> s[j] == u[j];
    }
  }

  /** A match that starts before a '}' at c is already a match in the prefix ending at c. */
  lemma MarkerInPrefix(s: string, p: int, c: nat)
    requires p < c < |s| && s[c] == '}'
    ensures MarkerAt(s, p) ==> MarkerAt(s[..c + 1], p)
  {
    if MarkerAt(s, p) {
      var u := s[..c + 1];
      var q :| p < q < |s| && s[q] == '}' && forall j :: p < j < q ==> s[j] != '\n';
      if q <= c {
        assert u[q] == '}' && forall j :: p < j < q ==> u[j] == s[j];
      } else {
        assert u[c] == '}' && forall j :: p < j < c ==> u[j] == s[j];
      }
    }
  }

  /** The text token at k followed by the marker after it, if there is one. */
  function TextWithMarker(tokens: seq<string>, k: nat): string
    requires k < |tokens|
  {
    if k + 1 < |tokens| then tokens[k] + "{" + tokens[k + 1] + "}" else tokens[k]
  }

  /** The split did not cut the text token at k too late: no match of the
      pattern starts inside it, even counting the marker that follows it. */
  ghost predicate TextIsLeftmost(tokens: seq<string>, k: nat)
    requires k < |tokens|
  {
    forall p :: 0 <= p < |tokens[k]| ==> !MarkerAt(TextWithMarker(tokens, k), p)
  }

  /** tokens is what a left-to-right scan for the lazy pattern makes of s. */
  ghost predicate SplitsTo(s: string, tokens: seq<string>) {
    && |tokens| % 2 == 1
    && Join(tokens) == s
    && (forall k :: 0 <= k < |tokens| && k % 2 == 1 ==> IsLabel(tokens[k]))
    && (forall k :: 0 <= k < |tokens| && k % 2 == 0 ==> TextIsLeftmost(tokens, k))
  }

  /** Split meets that description. */
  lemma {:induction false} SplitCorrect(s: string)
    decreases |s|
    ensures SplitsTo(s, Split(s))
  {
    SplitJoin(s);
    var tokens := Split(s);
    match FindMarker(s, 0)
    case None =>
      assert TextWithMarker(tokens, 0) == s;
    case Some((p, q)) =>
      var rest := s[q + 1..];
      SplitCorrect(rest);
      var r := Split(rest);
      assert tokens == [s[..p], s[p + 1..q]] + r;
      Reassemble(s, p, q);
      var u := TextWithMarker(tokens, 0);
      assert u == s[..q + 1];
      forall p' | 0 <= p' < |tokens[0]| ensures !MarkerAt(u, p') {
        MarkerExtends(u, s, p');
      }
      forall k | 2 <= k < |tokens| && k % 2 == 0 ensures TextIsLeftmost(tokens, k) {
        assert TextWithMarker(tokens, k) == TextWithMarker(r, k - 2);
        assert TextIsLeftmost(r, k - 2);
      }
  }

  /** A string with no match of the pattern is a single text token. */
  lemma NoMarkerSplit(s: string)
    requires forall p :: 0 <= p < |s| ==> !MarkerAt(s, p)
    ensures Split(s) == [s]
  {
  }

  /** When no match starts in the text before a marker, the split takes that
      marker first and goes on with what follows it. */
  lemma SplitCons(t: string, l: string, tail: string)
    requires IsLabel(l)
    requires forall p :: 0 <= p < |t| ==> !MarkerAt(t + "{" + l + "}", p)
    ensures Split(t + "{" + l + "}" + tail) == [t, l] + Split(tail)
  {
    var u := t + "{" + l + "}";
    var s := u + tail;
    var c := |t| + 1 + |l|;
    assert u == s[..c + 1];
    assert s[|t|] == '{' && s[c] == '}';
    assert forall j :: |t| < j < c ==> s[j] == l[j - |t| - 1];
    assert MarkerAt(s, |t|);
    forall p | 0 <= p < |t| ensures !MarkerAt(s, p) {
      MarkerInPrefix(s, p, c);
    }
    var m := FindMarker(s, 0);
    assert m.Some?;
    var (p0, q0) := m.value;
    assert p0 == |t|;
    assert q0 == c;
    assert s[..p0] == t && s[p0 + 1..q0] == l && s[q0 + 1..] == tail;
  }

  /** Past its first text and marker, a description of s describes the rest. */
  lemma SplitsToTail(s: string, tokens: seq<string>)
    requires SplitsTo(s, tokens) && |tokens| > 1
    ensures IsLabel(tokens[1])
    ensures forall p :: 0 <= p < |tokens[0]| ==> !MarkerAt(tokens[0] + "{" + tokens[1] + "}", p)
    ensures s == tokens[0] + "{" + tokens[1] + "}" + Join(tokens[2..])
    ensures SplitsTo(Join(tokens[2..]), tokens[2..])
  {
    var rest := tokens[2..];
    assert IsLabel(tokens[1]);
    assert TextIsLeftmost(tokens, 0);
    assert TextWithMarker(tokens, 0) == tokens[0] + "{" + tokens[1] + "}";
    forall k | 0 <= k < |rest| && k % 2 == 0 ensures TextIsLeftmost(rest, k) {
      assert TextWithMarker(rest, k) == TextWithMarker(tokens, k + 2);
      assert TextIsLeftmost(tokens, k + 2);
    }
    forall k | 0 <= k < |rest| && k % 2 == 1 ensures IsLabel(rest[k]) {
      assert rest[k] == tokens[k + 2];
    }
  }

  /** The description determines the tokens: Split is the only sequence that meets it. */
  lemma {:induction false} SplitUnique(s: string, tokens: seq<string>)
    requires SplitsTo(s, tokens)
    decreases |tokens|
    ensures Split(s) == tokens
  {
    if |tokens| == 1 {
      assert TextWithMarker(tokens, 0) == s;
      assert TextIsLeftmost(tokens, 0);
      NoMarkerSplit(s);
    } else {
      var t, l, rest := tokens[0], tokens[1], tokens[2..];
      SplitsToTail(s, tokens);
      SplitCons(t, l, Join(rest));
      SplitUnique(Join(rest), rest);
      assert tokens == [t, l] + rest;
    }
  }

  // ---------------------------------------------------------------------------
  // parse_speechtypes_text
  // ---------------------------------------------------------------------------

  /** The style of the text token at j: the stripped label of the marker just
      before it, or "Regular" for the text before the first marker. */
  function StyleBefore(tokens: seq<string>, j: nat): string
    requires j <= |tokens|
  {
    if j == 0 then Regular else Strip(tokens[j - 1])
  }

  /** The segments the parser emits for the first |tokens| tokens of a split. */
  function SegmentsOf(tokens: seq<string>): seq<Segment>
    decreases |tokens|
  {
    if |tokens| == 0 then []
    else
      var i := |tokens| - 1;
      var prev := SegmentsOf(tokens[..i]);
      if i % 2 == 0 && Strip(tokens[i]) != "" then prev + [Segment(StyleBefore(tokens, i), Strip(tokens[i]))]
      else prev
  }

  /** The segments of a script. */
  function Parse(s: string): seq<Segment> {
    SegmentsOf(Split(s))
  }

  /** Reading one more token emits at most that token. */
  lemma SegmentsSnoc(tokens: seq<string>, x: string)
    ensures SegmentsOf(tokens + [x]) == SegmentsOf(tokens)
      + if |tokens| % 2 == 0 && Strip(x) != "" then [Segment(StyleBefore(tokens + [x], |tokens|), Strip(x))] else []
  {
    assert (tokens + [x])[..|tokens|] == tokens;
  }

  /** Reading token i of a split emits at most that token, with the style before it. */
  lemma SegmentsStep(tokens: seq<string>, i: nat)
    requires i < |tokens|
    ensures SegmentsOf(tokens[..i + 1]) == SegmentsOf(tokens[..i])
      + if i % 2 == 0 && Strip(tokens[i]) != "" then [Segment(StyleBefore(tokens, i), Strip(tokens[i]))] else []
  {
    var pre := tokens[..i + 1];
    assert pre[..i] == tokens[..i];
    assert pre[i] == tokens[i];
    assert StyleBefore(pre, i) == StyleBefore(tokens, i);
  }

  /** Text and marker tokens alternate. */
  lemma NextParity(i: nat)
    ensures (i + 1) % 2 == 1 - i % 2
  {
  }

  /** The number of markers the split consumed. */
  function MarkerCount(s: string): nat {
    |Split(s)| / 2
  }

  /** parse_speechtypes_text: walks the tokens, keeps the current style, and
      emits each non-blank text token, stripped, with that style. */
  method ParseSpeechTypes(genText: string) returns (segments: seq<Segment>)
    ensures segments == Parse(genText)
    ensures forall k :: 0 <= k < |segments| ==> segments[k].text != "" && Strip(segments[k].text) == segments[k].text
  {
    var tokens := Split(genText);
    segments := [];
    var currentStyle := Regular;
    for i := 0 to |tokens|
      invariant segments == SegmentsOf(tokens[..i])
      invariant i % 2 == 0 ==> currentStyle == StyleBefore(tokens, i)
    {
      SegmentsStep(tokens, i);
      NextParity(i);
      if i % 2 == 0 {
        var text := Strip(tokens[i]);
        if text != "" {
          segments := segments + [Segment(currentStyle, text)];
        }
      } else {
        currentStyle := Strip(tokens[i]);
      }
    }
    assert tokens[..|tokens|] == tokens;
    SegmentsTrimmed(tokens);
  }

  /** Every segment has non-empty text without whitespace at either end. */
  lemma {:induction false} SegmentsTrimmed(tokens: seq<string>)
    decreases |tokens|
    ensures forall k :: 0 <= k < |SegmentsOf(tokens)| ==>
      SegmentsOf(tokens)[k].text != "" && Strip(SegmentsOf(tokens)[k].text) == SegmentsOf(tokens)[k].text
  {
    if |tokens| > 0 {
      var i := |tokens| - 1;
      SegmentsTrimmed(tokens[..i]);
      StripIdempotent(tokens[i]);
    }
  }

  /** There are at most as many segments as text tokens. */
  lemma {:induction false} SegmentsBound(tokens: seq<string>)
    decreases |tokens|
    ensures 2 * |SegmentsOf(tokens)| <= |tokens| + 1
  {
    if |tokens| > 0 {
      SegmentsBound(tokens[..|tokens| - 1]);
    }
  }

  /** A script yields at most one segment more than it has markers. */
  lemma ParseBound(s: string)
    ensures |Parse(s)| <= MarkerCount(s) + 1
  {
    SegmentsBound(Split(s));
  }

  /** idx maps every segment to the text token it came from: the segments are
      the non-blank text tokens, stripped, in input order, each with the style
      of the marker just before it. */
  ghost predicate Traces(tokens: seq<string>, segs: seq<Segment>, idx: seq<nat>) {
    && |idx| == |segs|
    && (forall k :: 0 <= k < |idx| ==>
          && idx[k] < |tokens| && idx[k] % 2 == 0
          && segs[k] == Segment(StyleBefore(tokens, idx[k]), Strip(tokens[idx[k]])))
    && (forall k, k' :: 0 <= k < k' < |idx| ==> idx[k] < idx[k'])
    && (forall j :: 0 <= j < |tokens| && j % 2 == 0 && Strip(tokens[j]) != "" ==> j in idx)
  }

  /** The positions of the text tokens that yield a segment, in order. */
  function TextIndices(tokens: seq<string>): seq<nat>
    decreases |tokens|
  {
    if |tokens| == 0 then []
    else
      var i := |tokens| - 1;
      TextIndices(tokens[..i]) + if i % 2 == 0 && Strip(tokens[i]) != "" then [i] else []
  }

  lemma {:induction false} TextIndicesInRange(tokens: seq<string>)
    decreases |tokens|
    ensures forall k :: 0 <= k < |TextIndices(tokens)| ==>
      TextIndices(tokens)[k] < |tokens| && TextIndices(tokens)[k] % 2 == 0
  {
    if |tokens| > 0 {
      TextIndicesInRange(tokens[..|tokens| - 1]);
    }
  }

  lemma {:induction false} TextIndicesIncreasing(tokens: seq<string>)
    decreases |tokens|
    ensures forall k, k' :: 0 <= k < k' < |TextIndices(tokens)| ==> TextIndices(tokens)[k] < TextIndices(tokens)[k']
  {
    if |tokens| > 0 {
      var i := |tokens| - 1;
      TextIndicesInRange(tokens[..i]);
      TextIndicesIncreasing(tokens[..i]);
    }
  }

  lemma {:induction false} TextIndicesComplete(tokens: seq<string>)
    decreases |tokens|
    ensures forall j :: 0 <= j < |tokens| && j % 2 == 0 && Strip(tokens[j]) != "" ==> j in TextIndices(tokens)
  {
    if |tokens| > 0 {
      var i := |tokens| - 1;
      var pre := tokens[..i];
      TextIndicesComplete(pre);
      forall j | 0 <= j < i && j % 2 == 0 && Strip(tokens[j]) != "" ensures j in TextIndices(tokens) {
        assert pre[j] == tokens[j];
        assert j in TextIndices(pre);
      }
    }
  }

  lemma {:induction false} TextIndicesSegments(tokens: seq<string>)
    decreases |tokens|
    ensures |TextIndices(tokens)| == |SegmentsOf(tokens)|
    ensures forall k :: 0 <= k < |TextIndices(tokens)| ==>
      TextIndices(tokens)[k] < |tokens|
      && SegmentsOf(tokens)[k] == Segment(StyleBefore(tokens, TextIndices(tokens)[k]), Strip(tokens[TextIndices(tokens)[k]]))
  {
    if |tokens| > 0 {
      var i := |tokens| - 1;
      var pre := tokens[..i];
      TextIndicesSegments(pre);
      TextIndicesInRange(pre);
      var idx0, idx := TextIndices(pre), TextIndices(tokens);
      var emits := i % 2 == 0 && Strip(tokens[i]) != "";
      assert idx == idx0 + if emits then [i] else [];
      assert SegmentsOf(tokens) == SegmentsOf(pre) + if emits then [Segment(StyleBefore(tokens, i), Strip(tokens[i]))] else [];
      forall k | 0 <= k < |idx0|
        ensures SegmentsOf(tokens)[k] == Segment(StyleBefore(tokens, idx[k]), Strip(tokens[idx[k]]))
      {
        var j := idx0[k];
        assert idx[k] == j;
        assert pre[j] == tokens[j];
        assert j == 0 || pre[j - 1] == tokens[j - 1];
        assert StyleBefore(pre, j) == StyleBefore(tokens, j);
      }
    }
  }

  /** The segments with the text tokens they came from. */
  lemma SegmentsOrigin(tokens: seq<string>) returns (idx: seq<nat>)
    ensures Traces(tokens, SegmentsOf(tokens), idx)
  {
    idx := TextIndices(tokens);
    TextIndicesInRange(tokens);
    TextIndicesIncreasing(tokens);
    TextIndicesComplete(tokens);
    TextIndicesSegments(tokens);
  }

  /** Text without any marker is one "Regular" segment, or none if blank. */
  lemma ParseNoMarker(s: string)
    requires forall p :: 0 <= p < |s| ==> !MarkerAt(s, p)
    ensures Parse(s) == if Strip(s) == "" then [] else [Segment(Regular, Strip(s))]
  {
    NoMarkerSplit(s);
    SegmentsSnoc([], s);
    assert [] + [s] == [s];
  }

  /** No '{' means no marker. */
  lemma NoBraceNoMarker(t: string, z: string)
    requires '{' !in t
    ensures forall p :: 0 <= p < |t| ==> !MarkerAt(t + z, p)
  {
    forall p | 0 <= p < |t| ensures !MarkerAt(t + z, p) {
      assert (t + z)[p] == t[p];
    }
  }

  // ---------------------------------------------------------------------------
  // insert_speech_type_fn
  // ---------------------------------------------------------------------------

  /** "Insert Label": appends `{name} ` to the script; a missing script counts
      as "" and a missing name as "None". */
  function InsertLabel(currentText: Option<string>, name: Option<string>): (r: string)
    ensures var t, n := OrDefault(currentText, ""), OrDefault(name, "None");
      && |r| == |t| + |n| + 3
      && r[..|t|] == t
      && r[|t|..] == "{" + n + "} "
  {
    OrDefault(currentText, "") + "{" + OrDefault(name, "None") + "} "
  }

  /** Appending a marker and a text to tokens appends them, braced, to the joined string. */
  lemma {:induction false} JoinSnoc(tokens: seq<string>, n: string, x: string)
    requires |tokens| % 2 == 1
    decreases |tokens|
    ensures Join(tokens + [n, x]) == Join(tokens) + "{" + n + "}" + x
  {
    var longer := tokens + [n, x];
    if |tokens| == 1 {
      assert longer[2..] == [x];
    } else {
      assert longer[2..] == tokens[2..] + [n, x];
      JoinSnoc(tokens[2..], n, x);
    }
  }

  /** The earlier text tokens keep the marker that follows them. */
  lemma SnocKeepsLeftmost(prev: seq<string>, n: string, x: string, k: nat)
    requires k + 1 < |prev| && TextIsLeftmost(prev, k)
    ensures TextIsLeftmost(prev + [n, x], k)
  {
    var longer := prev + [n, x];
    assert longer[k] == prev[k] && longer[k + 1] == prev[k + 1];
    assert TextWithMarker(longer, k) == TextWithMarker(prev, k);
  }

  /** The old last text token, followed now by the new marker, holds no match. */
  lemma SnocOldLastLeftmost(prev: seq<string>, n: string, x: string)
    requires |prev| > 0 && '{' !in prev[|prev| - 1]
    ensures TextIsLeftmost(prev + [n, x], |prev| - 1)
  {
    var longer := prev + [n, x];
    var k := |prev| - 1;
    assert longer[k] == prev[k] && longer[k + 1] == n;
    assert TextWithMarker(longer, k) == prev[k] + ("{" + n + "}");
    NoBraceNoMarker(prev[k], "{" + n + "}");
  }

  /** The new last text token holds no match. */
  lemma SnocNewLastLeftmost(prev: seq<string>, n: string, x: string)
    requires '{' !in x
    ensures TextIsLeftmost(prev + [n, x], |prev| + 1)
  {
    var longer := prev + [n, x];
    assert longer[|prev| + 1] == x;
    assert TextWithMarker(longer, |prev| + 1) == x;
    NoBraceNoMarker(x, "");
    assert x + "" == x;
  }

  /** A marker and a brace-free text appended to a string whose last text token
      has no brace extend its description by those two tokens. */
  lemma SnocSplitsTo(t: string, prev: seq<string>, n: string, x: string)
    requires SplitsTo(t, prev)
    requires '{' !in prev[|prev| - 1] && IsLabel(n) && '{' !in x
    ensures SplitsTo(t + "{" + n + "}" + x, prev + [n, x])
  {
    var longer := prev + [n, x];
    JoinSnoc(prev, n, x);
    NextParity(|prev|);
    NextParity(|prev| + 1);
    forall k | 0 <= k < |longer| && k % 2 == 1 ensures IsLabel(longer[k]) {
      if k < |prev| {
        assert longer[k] == prev[k];
      } else {
        assert k == |prev|;
      }
    }
    forall k | 0 <= k < |longer| && k % 2 == 0 ensures TextIsLeftmost(longer, k) {
      if k + 1 < |prev| {
        SnocKeepsLeftmost(prev, n, x, k);
      } else if k + 1 == |prev| {
        SnocOldLastLeftmost(prev, n, x);
      } else {
        assert k == |prev| + 1;
        SnocNewLastLeftmost(prev, n, x);
      }
    }
  }

  /** The script after an inserted label splits into the old script's tokens,
      the label and the continuation, when neither the old script's last text
      nor the continuation holds a brace. */
  lemma InsertLabelSplit(currentText: Option<string>, name: Option<string>, more: string)
    requires '{' !in Split(OrDefault(currentText, ""))[|Split(OrDefault(currentText, ""))| - 1] && '{' !in more
    requires IsLabel(OrDefault(name, "None"))
    ensures Split(InsertLabel(currentText, name) + more)
      == Split(OrDefault(currentText, "")) + [OrDefault(name, "None"), " " + more]
  {
    var t, n := OrDefault(currentText, ""), OrDefault(name, "None");
    var rest := " " + more;
    assert InsertLabel(currentText, name) + more == t + "{" + n + "}" + rest;
    assert '{' !in rest;
    SplitCorrect(t);
    SnocSplitsTo(t, Split(t), n, rest);
    SplitUnique(t + "{" + n + "}" + rest, Split(t) + [n, rest]);
  }

  /** Text typed after an inserted label gets that label's style: the old
      script keeps its segments, and the continuation, if not blank, follows
      them under the stripped name. */
  lemma InsertLabelStylesWhatFollows(currentText: Option<string>, name: Option<string>, more: string)
    requires '{' !in Split(OrDefault(currentText, ""))[|Split(OrDefault(currentText, ""))| - 1] && '{' !in more
    requires IsLabel(OrDefault(name, "None"))
    ensures var t, n := OrDefault(currentText, ""), OrDefault(name, "None");
      Parse(InsertLabel(currentText, name) + more)
        == Parse(t) + (if Strip(" " + more) == "" then [] else [Segment(Strip(n), Strip(" " + more))])
  {
    InsertLabelSplit(currentText, name, more);
    SegmentsOfLabelSnoc(Split(OrDefault(currentText, "")), OrDefault(name, "None"), " " + more);
  }

  /** A label token adds no segment. */
  lemma SegmentsLabelStep(tokens: seq<string>, i: nat)
    requires i < |tokens| && i % 2 == 1
    ensures SegmentsOf(tokens[..i + 1]) == SegmentsOf(tokens[..i])
  {
    SegmentsStep(tokens, i);
  }

  /** A text token adds itself, stripped, unless it is blank. */
  lemma SegmentsTextStep(tokens: seq<string>, i: nat)
    requires i < |tokens| && i % 2 == 0
    ensures SegmentsOf(tokens[..i + 1]) == SegmentsOf(tokens[..i])
      + if Strip(tokens[i]) == "" then [] else [Segment(StyleBefore(tokens, i), Strip(tokens[i]))]
  {
    SegmentsStep(tokens, i);
  }

  /** A label and the text after it add at most that text, in the label's style. */
  lemma SegmentsPairStep(tokens: seq<string>, m: nat)
    requires m + 2 <= |tokens| && m % 2 == 1
    ensures SegmentsOf(tokens[..m + 2]) == SegmentsOf(tokens[..m])
      + if Strip(tokens[m + 1]) == "" then [] else [Segment(Strip(tokens[m]), Strip(tokens[m + 1]))]
  {
    assert (m + 1) % 2 == 0 by {
      NextParity(m);
    }
    SegmentsLabelStep(tokens, m);
    SegmentsTextStep(tokens, m + 1);
  }

  /** A label and a text after a split add at most that text, in the label's style. */
  lemma SegmentsOfLabelSnoc(prev: seq<string>, n: string, x: string)
    requires |prev| % 2 == 1
    ensures SegmentsOf(prev + [n, x])
      == SegmentsOf(prev) + (if Strip(x) == "" then [] else [Segment(Strip(n), Strip(x))])
  {
    var longer, m := prev + [n, x], |prev|;
    SegmentsPairStep(longer, m);
    assert longer[..m + 2] == longer;
    assert longer[..m] == prev && longer[m] == n && longer[m + 1] == x;
  }

  // ---------------------------------------------------------------------------
  // validate_speech_types
  // ---------------------------------------------------------------------------

  /** A style may be generated when it is a non-empty name of the regular row
      or of one of the first MaxSpeechTypes name boxes. */
  ghost predicate Declared(style: string, regularName: string, names: seq<string>) {
    var limit := if |names| < MaxSpeechTypes then |names| else MaxSpeechTypes;
    style != "" && (style == regularName || style in names[..limit])
  }

  /** The Generate button is interactive exactly when every style used in the
      script is declared. */
  method ValidateSpeechTypes(genText: string, regularName: string, names: seq<string>) returns (interactive: bool)
    ensures interactive <==> forall k :: 0 <= k < |Parse(genText)| ==> Declared(Parse(genText)[k].style, regularName, names)
  {
    var limit := if |names| < MaxSpeechTypes then |names| else MaxSpeechTypes;
    var available: set<string> := {};
    if regularName != "" {
      available := available + {regularName};
    }
    for i := 0 to limit
      invariant forall x :: x in available <==> x != "" && (x == regularName || x in names[..i])
    {
      assert names[..i + 1] == names[..i] + [names[i]];
      if names[i] != "" {
        available := available + {names[i]};
      }
    }
    var segments := ParseSpeechTypes(genText);
    var used := set k | 0 <= k < |segments| :: segments[k].style;
    var missing := used - available;
    interactive := missing == {};
    if !interactive {
      var x :| x in missing;
      var k :| 0 <= k < |segments| && segments[k].style == x;
      assert !Declared(segments[k].style, regularName, names);
    } else {
      forall k | 0 <= k < |segments| ensures Declared(segments[k].style, regularName, names) {
        assert segments[k].style in used;
        assert segments[k].style !in missing;
        assert segments[k].style in available;
      }
    }
  }
}
