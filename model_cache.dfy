/** The model selection at the top of infer. The F5-TTS model is loaded when
    the program starts; the E2-TTS model is loaded on first use (at start when
    running in Spaces); a custom model is kept together with the checkpoint
    path it was loaded from and reloaded when another path is asked for. The
    loaders themselves are not modelled: a Model value names what was loaded. */
module ModelCache {
  import opened Strings

  /** A loaded model, named by what it was loaded from. */
  datatype Model = F5Base | E2Base | CustomModel(ckptPath: string, vocabPath: string)

  /** The model argument: "F5-TTS", "E2-TTS", or a list ["Custom", ckpt, vocab]. */
  datatype Choice = Named(name: string) | Listed(items: seq<string>)

  /** The model the synthesis then runs with, or the exception raised: an
      AssertionError for a custom model in Spaces, an IndexError for a list too
      short, an UnboundLocalError when no branch chose a model. */
  datatype Selection = Selected(model: Option<Model>) | AssertionError | IndexError | UnboundLocalError

  /** The globals E2TTS_ema_model, custom_ema_model and pre_custom_path. */
  datatype Cache = Cache(e2: Option<Model>, custom: Option<Model>, preCustomPath: string)

  /** The cache after one selection, what was selected, and what was loaded, if anything. */
  datatype Step = Step(cache: Cache, selection: Selection, loaded: Option<Model>)

  function InitialCache(usingSpaces: bool): Cache {
    Cache(if usingSpaces then Some(E2Base) else None, None, "")
  }

  /** One model selection. */
  function Select(usingSpaces: bool, c: Cache, choice: Choice): (s: Step)
    ensures s.loaded.Some? ==> s.selection == Selected(s.loaded)
    ensures s.loaded.None? ==> s.cache == c
    ensures !s.selection.Selected? ==> s.cache == c
  {
    match choice
    case Named(name) =>
      if name == "F5-TTS" then Step(c, Selected(Some(F5Base)), None)
      else if name == "E2-TTS" then
        if c.e2.None? then Step(c.(e2 := Some(E2Base)), Selected(Some(E2Base)), Some(E2Base))
        else Step(c, Selected(c.e2), None)
      else Step(c, UnboundLocalError, None)
    case Listed(items) =>
      if |items| == 0 then Step(c, IndexError, None)
      else if items[0] != "Custom" then Step(c, UnboundLocalError, None)
      else if usingSpaces then Step(c, AssertionError, None)
      else if |items| < 2 then Step(c, IndexError, None)
      else if c.preCustomPath != items[1] then
        if |items| < 3 then Step(c, IndexError, None)
        else
          var m := CustomModel(items[1], items[2]);
          Step(c.(custom := Some(m), preCustomPath := items[1]), Selected(Some(m)), Some(m))
      else Step(c, Selected(c.custom), None)
  }

  /** The module-level state infer reads and updates. */
  class ModelSlots {
    const usingSpaces: bool
    var e2TtsModel: Option<Model>
    var customModel: Option<Model>
    var preCustomPath: string

    ghost function State(): Cache
      reads this
    {
      Cache(e2TtsModel, customModel, preCustomPath)
    }

    constructor (usingSpaces: bool)
      ensures this.usingSpaces == usingSpaces
      ensures State() == InitialCache(usingSpaces)
    {
      this.usingSpaces := usingSpaces;
      e2TtsModel := if usingSpaces then Some(E2Base) else None;
      customModel := None;
      preCustomPath := "";
    }

    method SelectModel(choice: Choice) returns (selection: Selection, loaded: Option<Model>)
      modifies this
      ensures Step(State(), selection, loaded) == Select(usingSpaces, old(State()), choice)
    {
      loaded := None;
      match choice {
        case Named(name) =>
          if name == "F5-TTS" {
            selection := Selected(Some(F5Base));
          } else if name == "E2-TTS" {
            if e2TtsModel.None? {
              e2TtsModel := Some(E2Base);
              loaded := e2TtsModel;
            }
            selection := Selected(e2TtsModel);
          } else {
            selection := UnboundLocalError;
          }
        case Listed(items) =>
          if |items| == 0 {
            selection := IndexError;
          } else if items[0] != "Custom" {
            selection := UnboundLocalError;
          } else if usingSpaces {
            selection := AssertionError;
          } else if |items| < 2 {
            selection := IndexError;
          } else {
            if preCustomPath != items[1] {
              if |items| < 3 {
                selection := IndexError;
                return;
              }
              customModel := Some(CustomModel(items[1], items[2]));
              loaded := customModel;
              preCustomPath := items[1];
            }
            selection := Selected(customModel);
          }
      }
    }
  }

  /** The cached custom model is the one loaded from pre_custom_path; before any
      custom load the path is empty. */
  ghost predicate CustomMatchesPath(c: Cache) {
    (c.custom.None? ==> c.preCustomPath == "")
    && (c.custom.Some? ==> c.custom.value.CustomModel? && c.custom.value.ckptPath == c.preCustomPath)
  }

  /** Only an E2 model is ever stored in the E2 slot. */
  ghost predicate E2SlotHoldsE2(c: Cache) {
    c.e2.None? || c.e2 == Some(E2Base)
  }

  lemma InitialCacheValid(usingSpaces: bool)
    ensures CustomMatchesPath(InitialCache(usingSpaces)) && E2SlotHoldsE2(InitialCache(usingSpaces))
  {
  }

  /** A selection keeps both slot invariants, and a loaded model stays loaded. */
  lemma SelectKeepsInvariants(usingSpaces: bool, c: Cache, choice: Choice)
    requires CustomMatchesPath(c) && E2SlotHoldsE2(c)
    ensures CustomMatchesPath(Select(usingSpaces, c, choice).cache)
    ensures E2SlotHoldsE2(Select(usingSpaces, c, choice).cache)
    ensures c.e2.Some? ==> Select(usingSpaces, c, choice).cache.e2 == c.e2
    ensures c.custom.Some? ==> Select(usingSpaces, c, choice).cache.custom.Some?
  {
  }

  /** "F5-TTS" always gives the model loaded at start and loads nothing. */
  lemma F5NeverLoads(usingSpaces: bool, c: Cache)
    ensures Select(usingSpaces, c, Named("F5-TTS")) == Step(c, Selected(Some(F5Base)), None)
  {
  }

  /** "E2-TTS" loads the model exactly when it is not loaded yet, and always selects it. */
  lemma E2LoadedLazily(usingSpaces: bool, c: Cache)
    requires E2SlotHoldsE2(c)
    ensures Select(usingSpaces, c, Named("E2-TTS")).selection == Selected(Some(E2Base))
    ensures Select(usingSpaces, c, Named("E2-TTS")).loaded.Some? <==> c.e2.None?
  {
  }

  /** A custom checkpoint is reloaded exactly when its path differs from the
      cached one; then the new path is cached. */
  lemma CustomReloadedOnPathChange(c: Cache, ckpt: string, vocab: string)
    ensures var s := Select(false, c, Listed(["Custom", ckpt, vocab]));
      (s.loaded.Some? <==> c.preCustomPath != ckpt)
      && (c.preCustomPath != ckpt ==> s.loaded == Some(CustomModel(ckpt, vocab))
                                      && s.selection == Selected(Some(CustomModel(ckpt, vocab)))
                                      && s.cache.preCustomPath == ckpt)
      && (c.preCustomPath == ckpt ==> s.cache == c && s.selection == Selected(c.custom))
  {
  }

  /** Because the cache is keyed on the checkpoint path alone, asking for the
      same checkpoint with another vocabulary keeps the model with the old one. */
  lemma VocabChangeIgnored(c: Cache, ckpt: string, vocab: string, newVocab: string)
    requires c.custom == Some(CustomModel(ckpt, vocab)) && c.preCustomPath == ckpt
    ensures Select(false, c, Listed(["Custom", ckpt, newVocab]))
      == Step(c, Selected(Some(CustomModel(ckpt, vocab))), None)
  {
  }

  /** Before any custom model is loaded, asking for the empty checkpoint path
      matches the initial pre_custom_path and selects no model at all. */
  lemma EmptyCustomPathSelectsNothing(vocab: string)
    ensures Select(false, InitialCache(false), Listed(["Custom", "", vocab]))
      == Step(InitialCache(false), Selected(None), None)
  {
  }

  /** In Spaces every custom choice fails its assertion and changes nothing. */
  lemma SpacesRefusesCustom(c: Cache, items: seq<string>)
    requires |items| >= 1 && items[0] == "Custom"
    ensures Select(true, c, Listed(items)) == Step(c, AssertionError, None)
  {
  }

  /** A sequence of selections: the final cache and every model loaded on the way. */
  function Run(usingSpaces: bool, c: Cache, choices: seq<Choice>): (Cache, seq<Model>)
    decreases |choices|
  {
    if choices == [] then (c, [])
    else
      var (before, loads) := Run(usingSpaces, c, choices[..|choices| - 1]);
      var s := Select(usingSpaces, before, choices[|choices| - 1]);
      (s.cache, loads + (if s.loaded.Some? then [s.loaded.value] else []))
  }

  /** One selection loads the E2 model only into an empty slot and never empties it. */
  lemma SelectE2Slot(usingSpaces: bool, c: Cache, choice: Choice)
    requires E2SlotHoldsE2(c)
    ensures E2SlotHoldsE2(Select(usingSpaces, c, choice).cache)
    ensures Select(usingSpaces, c, choice).loaded == Some(E2Base) ==> c.e2.None? && Select(usingSpaces, c, choice).cache.e2.Some?
    ensures c.e2.Some? ==> Select(usingSpaces, c, choice).cache.e2 == c.e2
  {
  }

  /** Over any sequence of selections the E2 model is loaded at most once, and
      not at all when it was loaded already. */
  lemma {:induction false} E2LoadedAtMostOnce(usingSpaces: bool, c: Cache, choices: seq<Choice>)
    requires E2SlotHoldsE2(c)
    ensures E2SlotHoldsE2(Run(usingSpaces, c, choices).0)
    ensures c.e2.Some? ==> Run(usingSpaces, c, choices).0.e2 == c.e2
    ensures multiset(Run(usingSpaces, c, choices).1)[E2Base] == 0
      || (c.e2.None? && multiset(Run(usingSpaces, c, choices).1)[E2Base] == 1 && Run(usingSpaces, c, choices).0.e2.Some?)
    decreases |choices|
  {
    if choices != [] {
      var prefix := choices[..|choices| - 1];
      E2LoadedAtMostOnce(usingSpaces, c, prefix);
      var before := Run(usingSpaces, c, prefix).0;
      var loads := Run(usingSpaces, c, prefix).1;
      var s := Select(usingSpaces, before, choices[|choices| - 1]);
      SelectE2Slot(usingSpaces, before, choices[|choices| - 1]);
      var added := if s.loaded.Some? then [s.loaded.value] else [];
      assert Run(usingSpaces, c, choices) == (s.cache, loads + added);
      assert multiset(loads + added) == multiset(loads) + multiset(added);
    }
  }
}
