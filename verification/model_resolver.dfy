/** Choosing the generative model to talk to (main.py `normalize_model_name` and
    `pick_working_model`). The service's model list is a parameter instead of the
    HTTP call that fetches it. */
module ModelResolver {
  import opened Wrappers
  import opened Text

  /** The canonical prefix of a fully qualified model name. */
  const ModelsPrefix := "models/"

  /** The generation method a usable model must advertise. */
  const GenerateContent := "generateContent"

  /** One record of the service's model list: its `name` (None when the record has no
      "name" key) and its `supportedGenerationMethods` (empty when the key is absent). */
  datatype ModelEntry = ModelEntry(name: Option<string>, methods: seq<string>)

  predicate CanGenerate(m: ModelEntry) {
    GenerateContent in m.methods
  }

  datatype ResolveError = NoUsableModel

  /** `normalize_model_name`: strip surrounding whitespace and prefix `models/` unless
      it is already there. The result is canonical: it starts with `models/`, has no
      surrounding whitespace and ends with the stripped input. */
  function NormalizeModelName(model: string): (r: string)
    ensures IsPrefix(ModelsPrefix, r)
    ensures StripSpace(r) == r
    ensures EndsWith(r, StripSpace(model))
  {
    var m := StripSpace(model);
    if IsPrefix(ModelsPrefix, m) then
      StripFixed(m, Space);
      m
    else
      PrefixedIsCanonical(m);
      ModelsPrefix + m
  }

  /** Prefixing a stripped name gives a canonical name ending with it. */
  lemma PrefixedIsCanonical(m: string)
    requires |m| > 0 ==> !IsSpace(m[0]) && !IsSpace(m[|m| - 1])
    ensures var r := ModelsPrefix + m;
            IsPrefix(ModelsPrefix, r) && StripSpace(r) == r && EndsWith(r, m)
  {
    var r := ModelsPrefix + m;
    assert r[..|ModelsPrefix|] == ModelsPrefix;
    assert r[|r| - |m|..] == m;
    assert !IsSpace(r[0]) && !IsSpace(r[|r| - 1]) by {
      assert r[0] == 'm';
      if |m| == 0 {
        assert r[|r| - 1] == '/';
      } else {
        assert r[|r| - 1] == m[|m| - 1];
      }
    }
    StripFixed(r, Space);
  }

  /** The canonical names are exactly the fixed points of normalisation. */
  lemma NormalizeFixedIff(model: string)
    ensures NormalizeModelName(model) == model <==> IsPrefix(ModelsPrefix, model) && StripSpace(model) == model
  {
  }

  /** Surrounding whitespace is ignored: a padded name normalises as its stripped form,
      so with `NormalizeFixedIff` and `NormalizeBareName` the result is fixed for every
      input. */
  lemma NormalizeStripsFirst(model: string)
    ensures NormalizeModelName(model) == NormalizeModelName(StripSpace(model))
  {
    StripIdempotent(model, Space);
  }

  /** Normalisation is idempotent. */
  lemma NormalizeIdempotent(model: string)
    ensures NormalizeModelName(NormalizeModelName(model)) == NormalizeModelName(model)
  {
    NormalizeFixedIff(NormalizeModelName(model));
  }

  /** The first loop of `pick_working_model`: is there an entry named `name` that can
      generate content? */
  function HasCapableNamed(models: seq<ModelEntry>, name: string): (b: bool)
    ensures b <==> exists i :: 0 <= i < |models| && models[i].name == Some(name) && CanGenerate(models[i])
  {
    if |models| == 0 then false
    else if models[0].name == Some(name) && CanGenerate(models[0]) then true
    else
      assert forall i :: 1 <= i < |models| ==> models[i] == models[1..][i - 1];
      HasCapableNamed(models[1..], name)
  }

  /** The second loop of `pick_working_model`: the position of the first entry, in
      list order, that can generate content (`|models|` when none can). */
  function FirstCapable(models: seq<ModelEntry>): (k: nat)
    ensures k <= |models|
    ensures k < |models| ==> CanGenerate(models[k])
    ensures forall j :: 0 <= j < k ==> !CanGenerate(models[j])
  {
    if |models| == 0 then 0
    else if CanGenerate(models[0]) then 0
    else 1 + FirstCapable(models[1..])
  }

  /** `pick_working_model`: the preferred model when some entry carries its
      normalised name and can generate, whatever its position; otherwise the name of
      the first generation-capable entry in list order; an error exactly when no
      entry can generate. Whatever name is returned belongs to a capable entry. */
  function PickWorkingModel(preferred: string, models: seq<ModelEntry>): (r: Result<Option<string>, ResolveError>)
    ensures var pn := NormalizeModelName(preferred);
            (exists i :: 0 <= i < |models| && models[i].name == Some(pn) && CanGenerate(models[i]))
            ==> r == Ok(Some(pn))
    ensures var pn := NormalizeModelName(preferred);
            !(exists i :: 0 <= i < |models| && models[i].name == Some(pn) && CanGenerate(models[i]))
            && r.Ok?
            ==> exists k :: 0 <= k < |models| && CanGenerate(models[k]) && r.value == models[k].name
                            && forall j :: 0 <= j < k ==> !CanGenerate(models[j])
    ensures r.Err? <==> forall i :: 0 <= i < |models| ==> !CanGenerate(models[i])
    ensures r.Ok? ==> exists i :: 0 <= i < |models| && CanGenerate(models[i]) && models[i].name == r.value
  {
    var pn := NormalizeModelName(preferred);
    if HasCapableNamed(models, pn) then
      Ok(Some(pn))
    else
      var k := FirstCapable(models);
      if k < |models| then Ok(models[k].name) else Err(NoUsableModel)
  }

  /** The preferred model is found wherever it sits in the list: moving entries in
      front of it does not change the choice. */
  lemma PreferredWinsAnywhere(preferred: string, front: seq<ModelEntry>, back: seq<ModelEntry>, flags: seq<string>)
    requires GenerateContent in flags
    ensures var entry := ModelEntry(Some(NormalizeModelName(preferred)), flags);
            PickWorkingModel(preferred, front + [entry] + back) == Ok(Some(NormalizeModelName(preferred)))
  {
    var entry := ModelEntry(Some(NormalizeModelName(preferred)), flags);
    var models := front + [entry] + back;
    assert models[|front|] == entry;
  }

  /** A bare name without surrounding whitespace just gains the prefix. */
  lemma NormalizeBareName(m: string)
    requires |m| > 0 ==> !IsSpace(m[0]) && !IsSpace(m[|m| - 1])
    requires !IsPrefix(ModelsPrefix, m)
    ensures NormalizeModelName(m) == ModelsPrefix + m
  {
    StripFixed(m, Space);
  }

  /** An entry carrying the preferred name but lacking `generateContent` is passed
      over in favour of the first capable entry. */
  lemma PreferredWithoutGenerationFallsBack(preferred: string, listed: string, methods: seq<string>, other: string)
    requires listed == NormalizeModelName(preferred)
    requires GenerateContent !in methods
    requires other != listed
    ensures PickWorkingModel(preferred,
              [ModelEntry(Some(listed), methods), ModelEntry(Some(other), [GenerateContent])])
            == Ok(Some(other))
  {
    var models := [ModelEntry(Some(listed), methods), ModelEntry(Some(other), [GenerateContent])];
    assert !CanGenerate(models[0]);
    assert CanGenerate(models[1]);
  }

  lemma PrefixedExample(bare: string, full: string)
    requires bare == "gemini-2.5-flash"
    requires full == "models/gemini-2.5-flash"
    ensures ModelsPrefix + bare == full
  {
  }

  /** The default model setting normalises to its full resource name. */
  lemma NormalizeExample(preferred: string)
    requires preferred == "gemini-2.5-flash"
    ensures NormalizeModelName(preferred) == "models/gemini-2.5-flash"
  {
    assert !IsPrefix(ModelsPrefix, preferred) by {
      assert preferred[0] != ModelsPrefix[0];
    }
    PrefixedExample(preferred, "models/gemini-2.5-flash");
    NormalizeBareName(preferred);
  }
}
