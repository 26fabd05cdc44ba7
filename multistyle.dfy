/** The bookkeeping of generate_multistyle_speech: filling the ordered table of
    speech types from the rows of the tab, resolving the style of each parsed
    segment, threading each style's reference text through the synthesis
    calls, and assembling the response. The synthesis call itself (infer) is a
    parameter: given a reference audio, a reference text and the text to speak
    it returns a sample rate, the samples and the reference text it used. */
module Multistyle {
  import opened Strings
  import opened SpeechTypes

  /** The value stored for a speech type: {"audio": ..., "ref_text": ...}. */
  datatype Voice = Voice(audio: string, refText: string)

  /** One row of the tab: its name box, its uploaded audio file (None when
      nothing is uploaded) and its reference text box. */
  datatype Row = Row(name: string, audio: Option<string>, refText: string)

  /** An OrderedDict from style name to voice: keys in order of first insertion. */
  datatype Table = Table(keys: seq<string>, voices: map<string, Voice>)

  /** What one call of the synthesis returns: (sample rate, samples) and the reference text. */
  datatype Synthesis<A> = Synthesis(rate: nat, samples: seq<A>, refText: string)

  ghost predicate Distinct(keys: seq<string>) {
    forall i, j :: 0 <= i < j < |keys| ==> keys[i] != keys[j]
  }

  /** The key list has no repeats and names exactly the keys of the map. */
  ghost predicate ValidTable(t: Table) {
    Distinct(t.keys) && forall k :: k in t.voices <==> k in t.keys
  }

  /** `table[key] = v`: an existing key keeps its place, a new one goes last. */
  function Put(t: Table, key: string, v: Voice): (r: Table)
    requires ValidTable(t)
    ensures ValidTable(r)
    ensures r.voices == t.voices[key := v]
    ensures key in t.voices ==> r.keys == t.keys
    ensures key !in t.voices ==> r.keys == t.keys + [key]
  {
    Table(if key in t.voices then t.keys else t.keys + [key], t.voices[key := v])
  }

  /** zip(names, audios, ref_texts): as many rows as the shortest list. */
  function Zip(names: seq<string>, audios: seq<Option<string>>, refTexts: seq<string>): (rows: seq<Row>)
    ensures |rows| <= |names| && |rows| <= |audios| && |rows| <= |refTexts|
    ensures |rows| == |names| || |rows| == |audios| || |rows| == |refTexts|
    ensures forall i :: 0 <= i < |rows| ==> rows[i] == Row(names[i], audios[i], refTexts[i])
  {
    var n := if |names| <= |audios| && |names| <= |refTexts| then |names|
             else if |audios| <= |refTexts| then |audios| else |refTexts|;
    seq(n, i requires 0 <= i < n => Row(names[i], audios[i], refTexts[i]))
  }

  /** A row with a name and an audio file is stored under its name; any other
      row is stored under the placeholder "@i@", i being its position. */
  function RowKey(i: nat, row: Row): string {
    if row.name != "" && Truthy(row.audio) then row.name else "@" + NatToString(i) + "@"
  }

  /** A placeholder row has neither audio nor reference text. */
  function RowVoice(row: Row): Voice {
    if row.name != "" && Truthy(row.audio) then Voice(row.audio.value, row.refText) else Voice("", "")
  }

  /** The table after storing every row in order. */
  function Collect(rows: seq<Row>): (t: Table)
    ensures ValidTable(t)
    ensures |t.keys| <= |rows|
    decreases |rows|
  {
    if rows == [] then Table([], map[])
    else
      var n := |rows| - 1;
      Put(Collect(rows[..n]), RowKey(n, rows[n]), RowVoice(rows[n]))
  }

  method CollectSpeechTypes(names: seq<string>, audios: seq<Option<string>>, refTexts: seq<string>)
    returns (speechTypes: Table)
    ensures ValidTable(speechTypes)
    ensures speechTypes == Collect(Zip(names, audios, refTexts))
  {
    ghost var rows := Zip(names, audios, refTexts);
    speechTypes := Table([], map[]);
    var refTextIdx := 0;
    while refTextIdx < |names| && refTextIdx < |audios| && refTextIdx < |refTexts|
      invariant 0 <= refTextIdx <= |rows|
      invariant speechTypes == Collect(rows[..refTextIdx])
      decreases |names| - refTextIdx
    {
      CollectPrefixStep(rows, refTextIdx);
      var name, audio := names[refTextIdx], audios[refTextIdx];
      if name != "" && Truthy(audio) {
        speechTypes := Put(speechTypes, name, Voice(audio.value, refTexts[refTextIdx]));
      } else {
        speechTypes := Put(speechTypes, "@" + NatToString(refTextIdx) + "@", Voice("", ""));
      }
      refTextIdx := refTextIdx + 1;
    }
    assert rows[..refTextIdx] == rows;
  }

  /** Storing the voices vs under the keys ks, one after the other. */
  function PutAll(ks: seq<string>, vs: seq<Voice>): (t: Table)
    requires |ks| == |vs|
    ensures ValidTable(t)
    decreases |ks|
  {
    if ks == [] then Table([], map[])
    else
      var n := |ks| - 1;
      Put(PutAll(ks[..n], vs[..n]), ks[n], vs[n])
  }

  /** The key each row is stored under, in row order. */
  function RowKeys(rows: seq<Row>): (ks: seq<string>)
    ensures |ks| == |rows|
    ensures forall i :: 0 <= i < |rows| ==> ks[i] == RowKey(i, rows[i])
  {
    seq(|rows|, i requires 0 <= i < |rows| => RowKey(i, rows[i]))
  }

  /** The voice each row stores, in row order. */
  function RowVoices(rows: seq<Row>): (vs: seq<Voice>)
    ensures |vs| == |rows|
    ensures forall i :: 0 <= i < |rows| ==> vs[i] == RowVoice(rows[i])
  {
    seq(|rows|, i requires 0 <= i < |rows| => RowVoice(rows[i]))
  }

  /** Filling the table from the rows stores each row's voice under its key. */
  lemma {:induction false} CollectIsPutAll(rows: seq<Row>)
    ensures Collect(rows) == PutAll(RowKeys(rows), RowVoices(rows))
    decreases |rows|
  {
    if rows != [] {
      var n := |rows| - 1;
      var ks, vs := RowKeys(rows), RowVoices(rows);
      assert Collect(rows[..n]) == PutAll(ks[..n], vs[..n]) by {
        assert ks[..n] == RowKeys(rows[..n]);
        assert vs[..n] == RowVoices(rows[..n]);
        CollectIsPutAll(rows[..n]);
      }
      assert ks[n] == RowKey(n, rows[n]) && vs[n] == RowVoice(rows[n]);
    }
  }

  /** Every key stored is in the table. */
  lemma {:induction false} PutAllHasKey(ks: seq<string>, vs: seq<Voice>, i: nat)
    requires |ks| == |vs| && i < |ks|
    ensures ks[i] in PutAll(ks, vs).voices
    decreases |ks|
  {
    var n := |ks| - 1;
    var t := PutAll(ks[..n], vs[..n]);
    assert PutAll(ks, vs).voices == t.voices[ks[n] := vs[n]];
    if i < n {
      assert ks[i] in t.voices by {
        assert ks[..n][i] == ks[i];
        PutAllHasKey(ks[..n], vs[..n], i);
      }
    }
  }

  /** Every key of the table was stored. */
  lemma {:induction false} PutAllKeysStored(ks: seq<string>, vs: seq<Voice>, key: string)
    requires |ks| == |vs| && key in PutAll(ks, vs).voices
    ensures exists i :: 0 <= i < |ks| && ks[i] == key
    decreases |ks|
  {
    var n := |ks| - 1;
    var t := PutAll(ks[..n], vs[..n]);
    assert PutAll(ks, vs).voices == t.voices[ks[n] := vs[n]];
    if key != ks[n] {
      assert key in t.voices;
      PutAllKeysStored(ks[..n], vs[..n], key);
      var i :| 0 <= i < n && ks[..n][i] == key;
      assert ks[i] == key;
    }
  }

  /** The last voice stored under a key is its value. */
  lemma {:induction false} PutAllLastWins(ks: seq<string>, vs: seq<Voice>, i: nat)
    requires |ks| == |vs| && i < |ks|
    requires forall j :: i < j < |ks| ==> ks[j] != ks[i]
    ensures ks[i] in PutAll(ks, vs).voices && PutAll(ks, vs).voices[ks[i]] == vs[i]
    decreases |ks|
  {
    var n := |ks| - 1;
    var t := PutAll(ks[..n], vs[..n]);
    assert PutAll(ks, vs).voices == t.voices[ks[n] := vs[n]];
    if i < n {
      assert ks[i] in t.voices && t.voices[ks[i]] == vs[i] by {
        var pk := ks[..n];
        assert pk[i] == ks[i] && vs[..n][i] == vs[i];
        assert forall j :: i < j < n ==> pk[j] == ks[j];
        PutAllLastWins(pk, vs[..n], i);
      }
      assert ks[n] != ks[i];
    }
  }

  /** Distinct keys are all kept, in the order stored. */
  lemma {:induction false} PutAllDistinct(ks: seq<string>, vs: seq<Voice>)
    requires |ks| == |vs| && Distinct(ks)
    ensures PutAll(ks, vs).keys == ks
    decreases |ks|
  {
    if ks != [] {
      var n := |ks| - 1;
      var pk := ks[..n];
      assert Distinct(pk) by {
        forall a, b | 0 <= a < b < n ensures pk[a] != pk[b] {
          assert pk[a] == ks[a] && pk[b] == ks[b];
        }
      }
      PutAllDistinct(pk, vs[..n]);
      assert ks[n] !in pk by {
        forall a | 0 <= a < n ensures pk[a] != ks[n] {
          assert pk[a] == ks[a];
        }
      }
      assert pk + [ks[n]] == ks;
    }
  }

  /** Storing one more row. */
  lemma CollectPrefixStep(rows: seq<Row>, i: nat)
    requires i < |rows|
    ensures Collect(rows[..i + 1]) == Put(Collect(rows[..i]), RowKey(i, rows[i]), RowVoice(rows[i]))
  {
    assert rows[..i + 1][..i] == rows[..i];
  }

  /** A key is in the table exactly when some row is stored under it. */
  lemma CollectKeys(rows: seq<Row>, key: string)
    ensures key in Collect(rows).voices <==> exists i :: 0 <= i < |rows| && RowKey(i, rows[i]) == key
  {
    if key in Collect(rows).voices {
      CollectKeysFromRows(rows, key);
    }
    if exists i :: 0 <= i < |rows| && RowKey(i, rows[i]) == key {
      var i :| 0 <= i < |rows| && RowKey(i, rows[i]) == key;
      CollectHasRowKey(rows, i);
    }
  }

  /** Every key of the table is the key of some row. */
  lemma {:induction false} CollectKeysFromRows(rows: seq<Row>, key: string)
    requires key in Collect(rows).voices
    ensures exists i :: 0 <= i < |rows| && RowKey(i, rows[i]) == key
  {
    var ks := RowKeys(rows);
    CollectIsPutAll(rows);
    PutAllKeysStored(ks, RowVoices(rows), key);
    var i :| 0 <= i < |ks| && ks[i] == key;
    assert RowKey(i, rows[i]) == key;
  }

  /** Every row's key is in the table. */
  lemma {:induction false} CollectHasRowKey(rows: seq<Row>, i: nat)
    requires i < |rows|
    ensures RowKey(i, rows[i]) in Collect(rows).voices
  {
    CollectIsPutAll(rows);
    PutAllHasKey(RowKeys(rows), RowVoices(rows), i);
  }

  /** The last row stored under a key wins. */
  lemma {:induction false} CollectLastWins(rows: seq<Row>, i: nat)
    requires i < |rows|
    requires forall j :: i < j < |rows| ==> RowKey(j, rows[j]) != RowKey(i, rows[i])
    ensures RowKey(i, rows[i]) in Collect(rows).voices
    ensures Collect(rows).voices[RowKey(i, rows[i])] == RowVoice(rows[i])
  {
    var ks := RowKeys(rows);
    assert forall j :: i < j < |ks| ==> ks[j] != ks[i];
    CollectIsPutAll(rows);
    PutAllLastWins(ks, RowVoices(rows), i);
  }

  /** When no two rows share a key, the table has one key per row, in row order;
      only then does the response carry one reference text per row. */
  lemma {:induction false} CollectDistinctRows(rows: seq<Row>)
    requires forall i, j :: 0 <= i < j < |rows| ==> RowKey(i, rows[i]) != RowKey(j, rows[j])
    ensures |Collect(rows).keys| == |rows|
    ensures forall i :: 0 <= i < |rows| ==> Collect(rows).keys[i] == RowKey(i, rows[i])
  {
    var ks := RowKeys(rows);
    assert Distinct(ks);
    CollectIsPutAll(rows);
    PutAllDistinct(ks, RowVoices(rows));
  }

  /** A two-row collision: a name equal to the placeholder of a later empty row
      is overwritten by that placeholder, so there are fewer keys than rows. */
  lemma PlaceholderCollision(audio: string, refText: string)
    requires audio != ""
    ensures var rows := [Row("@1@", Some(audio), refText), Row("", None, "")];
      Collect(rows).keys == ["@1@"] && Collect(rows).voices["@1@"] == Voice("", "")
  {
    var rows := [Row("@1@", Some(audio), refText), Row("", None, "")];
    assert NatToString(1) == "1";
    assert RowKey(1, rows[1]) == "@1@";
    assert rows[..1] == [rows[0]];
    assert rows[..1][..0] == [];
  }

  // ---------------------------------------------------------------------------
  // The segment loop
  // ---------------------------------------------------------------------------

  /** The style a segment is spoken in: its own when it is a key, otherwise "Regular". */
  function Resolve(t: Table, style: string): (r: string)
    ensures r in t.voices <==> style in t.voices || Regular in t.voices
  {
    if style in t.voices then style else Regular
  }

  /** `table[key]["ref_text"] = s` */
  function SetRefText(t: Table, key: string, s: string): Table
    requires key in t.voices
  {
    Table(t.keys, t.voices[key := t.voices[key].(refText := s)])
  }

  /** The state of the loop after some segments: the table, the samples of each
      segment and the last sample rate; or the KeyError raised on a missing key. */
  datatype Progress<A> = Running(table: Table, chunks: seq<seq<A>>, rate: Option<nat>) | Raised(missing: string)

  /** The loop over the segments, one step per segment. */
  function Run<A>(t: Table, segs: seq<Segment>, synth: (string, string, string) -> Synthesis<A>): (p: Progress<A>)
    requires ValidTable(t)
    ensures p.Running? ==> ValidTable(p.table) && p.table.keys == t.keys
    ensures p.Running? ==> |p.chunks| == |segs| && (p.rate.None? <==> segs == [])
    decreases |segs|
  {
    if segs == [] then Running(t, [], None)
    else
      var n := |segs| - 1;
      match Run(t, segs[..n], synth)
      case Raised(key) => Raised(key)
      case Running(cur, chunks, _) => Step(cur, chunks, segs[n], synth)
  }

  /** One iteration: resolve the style, speak the text with that style's voice,
      and store the reference text the call returns back under that style. */
  function Step<A>(cur: Table, chunks: seq<seq<A>>, seg: Segment, synth: (string, string, string) -> Synthesis<A>): Progress<A>
    requires ValidTable(cur)
  {
    var key := Resolve(cur, seg.style);
    if key !in cur.voices then Raised(key)
    else
      var out := synth(cur.voices[key].audio, cur.voices[key].refText, seg.text);
      Running(SetRefText(cur, key, out.refText), chunks + [out.samples], Some(out.rate))
  }

  /** A KeyError is raised exactly when "Regular" is not a key and some segment
      has a style that is not a key either; the missing key is then "Regular". */
  lemma {:induction false} RunRaises<A>(t: Table, segs: seq<Segment>, synth: (string, string, string) -> Synthesis<A>)
    requires ValidTable(t)
    ensures Run(t, segs, synth).Raised? <==>
      Regular !in t.voices && exists k :: 0 <= k < |segs| && segs[k].style !in t.voices
    ensures Run(t, segs, synth).Raised? ==> Run(t, segs, synth).missing == Regular
    decreases |segs|
  {
    if segs != [] {
      var n := |segs| - 1;
      var pre := segs[..n];
      var p := Run(t, pre, synth);
      assert (exists k :: 0 <= k < |segs| && segs[k].style !in t.voices)
        <==> (exists k :: 0 <= k < n && pre[k].style !in t.voices) || segs[n].style !in t.voices by {
        assert forall k :: 0 <= k < n ==> pre[k] == segs[k];
      }
      RunRaises(t, pre, synth);
      if p.Running? {
        assert forall k :: k in p.table.voices <==> k in t.voices;
        assert Run(t, segs, synth) == Step(p.table, p.chunks, segs[n], synth);
      }
    }
  }

  /** A failed run stays failed as more segments follow. */
  lemma {:induction false} RunRaisedPrefix<A>(t: Table, segs: seq<Segment>, i: nat, synth: (string, string, string) -> Synthesis<A>)
    requires ValidTable(t) && i <= |segs|
    requires Run(t, segs[..i], synth).Raised?
    ensures Run(t, segs, synth) == Run(t, segs[..i], synth)
    decreases |segs| - i
  {
    if i < |segs| {
      var n := |segs| - 1;
      assert segs[..n][..i] == segs[..i];
      RunRaisedPrefix(t, segs[..n], i, synth);
    } else {
      assert segs[..i] == segs;
    }
  }

  /** One more segment is one more step of the loop. */
  lemma RunPrefixStep<A>(t: Table, segs: seq<Segment>, i: nat, synth: (string, string, string) -> Synthesis<A>)
    requires ValidTable(t) && i < |segs|
    requires Run(t, segs[..i], synth).Running?
    ensures Run(t, segs[..i + 1], synth)
      == Step(Run(t, segs[..i], synth).table, Run(t, segs[..i], synth).chunks, segs[i], synth)
  {
    assert segs[..i + 1][..i] == segs[..i];
  }

  /** The loop never changes a style's reference audio. */
  lemma {:induction false} RunKeepsAudio<A>(t: Table, segs: seq<Segment>, synth: (string, string, string) -> Synthesis<A>, key: string)
    requires ValidTable(t) && key in t.voices
    requires Run(t, segs, synth).Running?
    ensures key in Run(t, segs, synth).table.voices
    ensures Run(t, segs, synth).table.voices[key].audio == t.voices[key].audio
    decreases |segs|
  {
    if segs != [] {
      RunKeepsAudio(t, segs[..|segs| - 1], synth, key);
    }
  }

  /** A style no segment resolves to keeps its reference text. */
  lemma {:induction false} RunKeepsUnusedRefText<A>(t: Table, segs: seq<Segment>, synth: (string, string, string) -> Synthesis<A>, key: string)
    requires ValidTable(t) && key in t.voices
    requires Run(t, segs, synth).Running?
    requires forall k :: 0 <= k < |segs| ==> Resolve(t, segs[k].style) != key
    ensures key in Run(t, segs, synth).table.voices
    ensures Run(t, segs, synth).table.voices[key] == t.voices[key]
    decreases |segs|
  {
    if segs != [] {
      var n := |segs| - 1;
      assert forall k :: 0 <= k < n ==> segs[..n][k] == segs[k];
      RunKeepsUnusedRefText(t, segs[..n], synth, key);
    }
  }

  /** A run that gets through all segments got through every prefix of them,
      with the chunks of that prefix. */
  lemma {:induction false} RunPrefixRunning<A>(t: Table, segs: seq<Segment>, synth: (string, string, string) -> Synthesis<A>, m: nat)
    requires ValidTable(t) && m <= |segs|
    requires Run(t, segs, synth).Running?
    ensures Run(t, segs[..m], synth).Running?
    ensures Run(t, segs[..m], synth).chunks == Run(t, segs, synth).chunks[..m]
    decreases |segs|
  {
    if m == |segs| {
      assert segs[..m] == segs;
    } else {
      var n := |segs| - 1;
      var p := Run(t, segs[..n], synth);
      assert p.Running?;
      var step := Step(p.table, p.chunks, segs[n], synth);
      assert Run(t, segs, synth) == step;
      assert step.chunks[..n] == p.chunks;
      RunPrefixRunning(t, segs[..n], synth, m);
      assert segs[..n][..m] == segs[..m];
    }
  }

  /** Segment k is spoken with the text of segment k, the reference audio of the
      style it resolves to, and that style's reference text as the earlier
      segments left it; the reference text the call returns then replaces it. */
  lemma RunChunkVoice<A>(t: Table, segs: seq<Segment>, synth: (string, string, string) -> Synthesis<A>, k: nat)
    requires ValidTable(t) && k < |segs|
    requires Run(t, segs, synth).Running?
    ensures Resolve(t, segs[k].style) in t.voices
    ensures Run(t, segs[..k], synth).Running? && Run(t, segs[..k + 1], synth).Running?
    ensures var key, before := Resolve(t, segs[k].style), Run(t, segs[..k], synth).table;
      key in before.voices
      && var out := synth(t.voices[key].audio, before.voices[key].refText, segs[k].text);
         Run(t, segs, synth).chunks[k] == out.samples
         && Run(t, segs[..k + 1], synth).table == SetRefText(before, key, out.refText)
  {
    RunPrefixRunning(t, segs, synth, k + 1);
    var pre := segs[..k + 1];
    assert pre[..k] == segs[..k];
    assert pre[k] == segs[k];
    var p := Run(t, segs[..k], synth);
    assert p.Running?;
    var step := Step(p.table, p.chunks, segs[k], synth);
    assert Run(t, pre, synth) == step;
    var key := Resolve(p.table, segs[k].style);
    assert key == Resolve(t, segs[k].style);
    RunKeepsAudio(t, segs[..k], synth, key);
    assert Run(t, pre, synth).chunks[k] == Run(t, segs, synth).chunks[k];
  }

  // ---------------------------------------------------------------------------
  // The response
  // ---------------------------------------------------------------------------

  /** np.concatenate of the segments' samples. */
  function Concat<A>(chunks: seq<seq<A>>): seq<A> {
    if chunks == [] then [] else Concat(chunks[..|chunks| - 1]) + chunks[|chunks| - 1]
  }

  /** The reference text of every style, in key order. */
  function RefTexts(t: Table): (r: seq<string>)
    requires ValidTable(t)
    ensures |r| == |t.keys|
    ensures forall i :: 0 <= i < |r| ==> r[i] == t.voices[t.keys[i]].refText
  {
    seq(|t.keys|, i requires 0 <= i < |t.keys| && ValidTable(t) => t.voices[t.keys[i]].refText)
  }

  /** What the handler returns: the audio (None when no segment was spoken)
      followed by every style's reference text; or the KeyError it raises. */
  datatype Response<A> = Response(audio: Option<(nat, seq<A>)>, refTexts: seq<string>) | KeyError(key: string)

  function Finish<A>(t: Table, segs: seq<Segment>, synth: (string, string, string) -> Synthesis<A>): Response<A>
    requires ValidTable(t)
  {
    match Run(t, segs, synth)
    case Raised(key) => KeyError(key)
    case Running(cur, chunks, rate) =>
      Response(if chunks == [] then None else Some((rate.value, Concat(chunks))), RefTexts(cur))
  }

  /** The whole handler: table, parse, loop, response. */
  function Generate<A>(genText: string, names: seq<string>, audios: seq<Option<string>>, refTexts: seq<string>,
                       synth: (string, string, string) -> Synthesis<A>): Response<A>
  {
    Finish(Collect(Zip(names, audios, refTexts)), Parse(genText), synth)
  }

  /** The segment loop of the handler, from the collected table. */
  method SpeakSegments<A>(speechTypes: Table, segments: seq<Segment>, synth: (string, string, string) -> Synthesis<A>)
    returns (progress: Progress<A>)
    requires ValidTable(speechTypes)
    ensures progress == Run(speechTypes, segments, synth)
  {
    var table := speechTypes;
    var generated: seq<seq<A>> := [];
    var sr: Option<nat> := None;
    for i := 0 to |segments|
      invariant Run(speechTypes, segments[..i], synth) == Running(table, generated, sr)
    {
      RunPrefixStep(speechTypes, segments, i, synth);
      ghost var step := Step(table, generated, segments[i], synth);
      var style := segments[i].style;
      var currentStyle := if style in table.voices then style else Regular;
      if currentStyle !in table.voices {
        RunRaisedPrefix(speechTypes, segments, i + 1, synth);
        return Raised(currentStyle);
      }
      var out := synth(table.voices[currentStyle].audio, table.voices[currentStyle].refText, segments[i].text);
      generated := generated + [out.samples];
      sr := Some(out.rate);
      table := SetRefText(table, currentStyle, out.refText);
      assert step == Running(table, generated, sr);
    }
    assert segments[..|segments|] == segments;
    progress := Running(table, generated, sr);
  }

  method GenerateMultistyleSpeech<A>(genText: string, names: seq<string>, audios: seq<Option<string>>,
                                     refTexts: seq<string>, synth: (string, string, string) -> Synthesis<A>)
    returns (response: Response<A>)
    ensures response == Generate(genText, names, audios, refTexts, synth)
  {
    var speechTypes := CollectSpeechTypes(names, audios, refTexts);
    var segments := ParseSpeechTypes(genText);
    var progress := SpeakSegments(speechTypes, segments, synth);
    match progress
    case Raised(key) =>
      response := KeyError(key);
    case Running(table, generated, sr) =>
      if generated != [] {
        response := Response(Some((sr.value, Concat(generated))), RefTexts(table));
      } else {
        response := Response(None, RefTexts(table));
      }
  }

  /** A response carries one reference text per key, and audio exactly when the
      text has at least one segment. */
  lemma GenerateShape<A>(genText: string, names: seq<string>, audios: seq<Option<string>>, refTexts: seq<string>,
                         synth: (string, string, string) -> Synthesis<A>)
    ensures var r := Generate(genText, names, audios, refTexts, synth);
      r.Response? ==> |r.refTexts| == |Collect(Zip(names, audios, refTexts)).keys|
                      && (r.audio.None? <==> Parse(genText) == [])
  {
  }

  /** The regular row without audio is stored under "@0@"; then unless another
      row is named "Regular" and has audio, a text with a segment in an
      unknown style, or in the style "Regular", raises. */
  lemma RegularWithoutAudio<A>(genText: string, names: seq<string>, audios: seq<Option<string>>, refTexts: seq<string>,
                               synth: (string, string, string) -> Synthesis<A>)
    requires forall i :: 0 <= i < |names| && i < |audios| ==> !(names[i] == Regular && Truthy(audios[i]))
    requires exists k :: 0 <= k < |Parse(genText)| && Parse(genText)[k].style !in Collect(Zip(names, audios, refTexts)).voices
    ensures Generate(genText, names, audios, refTexts, synth) == KeyError(Regular)
  {
    var rows := Zip(names, audios, refTexts);
    forall i | 0 <= i < |rows| ensures RowKey(i, rows[i]) != Regular {
      var placeholder := "@" + NatToString(i) + "@";
      assert placeholder[0] == '@';
    }
    CollectKeys(rows, Regular);
    RunRaises(Collect(rows), Parse(genText), synth);
  }
}
