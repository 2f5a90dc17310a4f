/** The settings the Streamlit form of app/main.py hands to the transcriber:
    the model radio, the fixed English-only flag, the output radio, and the
    rule that turns the selected model into the id whisperx loads. */
module App {
  import opened Text

  /** The options of the model radio. */
  const ModelChoices: seq<string> := ["tiny", "base", "small", "medium", "large", "large-v2", "large-v3"]

  /** The English-only flag: the radio that would set it is commented out
      and the session value is fixed to `'yes'`. */
  const EnglishOnly: string := "yes"

  /** The options of the output radio. */
  const OutputChoices: seq<string> := ["VTT", "paragraph"]

  /** `model.split('-')[0] == 'large'`. */
  predicate IsLargeVariant(model: string)
  {
    BeforeFirst(model, '-') == "large"
  }

  /** A large variant is `large` itself or starts with `large-`. */
  lemma {:induction false} LargeVariantIff(model: string)
    ensures IsLargeVariant(model) <==> model == "large" || (|model| >= 6 && model[..6] == "large-")
  {
    var p := BeforeFirst(model, '-');
    assert '-' !in "large" by {
      forall j | 0 <= j < 5 ensures "large"[j] != '-' { }
    }
    if p == "large" {
      if |model| == 5 {
        assert model == model[..5];
      } else {
        assert model[5] == '-';
        assert model[..6] == model[..5] + ['-'];
      }
    }
    if model == "large" {
      assert |p| == |model|;
    }
    if |model| >= 6 && model[..6] == "large-" {
      var rest := model[6..];
      assert model == model[..6] + rest;
      assert "large-" == "large" + ['-'];
      BeforeFirstOf("large", '-', rest);
    }
  }

  /** Lines 143-149: with English only, every model but a large variant is
      replaced by its English-only `.en` version; otherwise the selection is
      used as it is. */
  function DeriveModelId(eo: string, model: string): (id: string)
    ensures id == model || id == model + ".en"
    ensures id == model + ".en" <==> eo == "yes" && !IsLargeVariant(model)
  {
    if eo == "yes" then
      if IsLargeVariant(model) then model else model + ".en"
    else model
  }

  /** A large variant starts with `l`. */
  lemma {:induction false} LargeStartsWithL(model: string)
    ensures IsLargeVariant(model) ==> model != [] && model[0] == 'l'
  {
    LargeVariantIff(model);
    if |model| >= 6 && model[..6] == "large-" {
      assert model[0] == model[..6][0];
    }
  }

  /** A model whose name does not start with `l` is not a large variant. */
  lemma {:induction false} NotLarge(model: string)
    requires model != [] && model[0] != 'l'
    ensures !IsLargeVariant(model)
  {
    LargeStartsWithL(model);
  }

  /** With the flag fixed to `'yes'`, the first four options of the model
      radio (`tiny`, `base`, `small`, `medium`) load in their English-only
      form, `tiny.en` and so on. */
  lemma {:induction false} SmallChoicesMapping()
    ensures ModelChoices[..4] == ["tiny", "base", "small", "medium"]
    ensures forall m | m in ModelChoices[..4] :: DeriveModelId(EnglishOnly, m) == m + ".en"
  {
    assert ModelChoices[..4] == ["tiny", "base", "small", "medium"];
    forall m | m in ModelChoices[..4] ensures DeriveModelId(EnglishOnly, m) == m + ".en" {
      assert m[0] in "tbsm";
      NotLarge(m);
    }
  }

  /** With the flag fixed to `'yes'`, the three large options of the model
      radio load as they are. */
  lemma {:induction false} LargeChoicesMapping()
    ensures ModelChoices[4..] == ["large", "large-v2", "large-v3"]
    ensures forall m | m in ModelChoices[4..] :: DeriveModelId(EnglishOnly, m) == m
  {
    assert ModelChoices[4..] == ["large", "large-v2", "large-v3"];
    forall m | m in ModelChoices[4..] ensures DeriveModelId(EnglishOnly, m) == m {
      LargeVariantIff(m);
      if m != "large" {
        assert m[..6] == "large-";
      }
    }
  }
}
