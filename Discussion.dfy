/**
 * `ModelDiscussionSystem`: the fixed label-to-model map built at start-up, the
 * anonymous labelling of the three first replies, the prompt for the final
 * round and the choice of the model that answers it.
 */
module Discussion {
  import opened Wrappers
  import opened PyDict

  /** The three model backends, in the order each round asks them. */
  datatype Backend = OpenAI | Claude | Gemini

  /** The order of the replies a round gathers: OpenAI's, Claude's, then Gemini's. */
  const DispatchOrder: seq<Backend> := [OpenAI, Claude, Gemini]

  /** The items of the `model_map` display, in the order written. */
  const ModelMapItems: seq<(string, string)> := [("R1", "OpenAI"), ("R2", "Claude"), ("R3", "Gemini")]

  /** `reverse_map` as `__init__` leaves it. */
  const ReverseMapItems: seq<(string, string)> := [("OpenAI", "R1"), ("Claude", "R2"), ("Gemini", "R3")]

  /** The dict lookup that finds no entry. */
  datatype KeyError = KeyError(key: string)

  /** `perm` rearranges the positions `0 .. n - 1`: the shuffle `random.shuffle` produced. */
  ghost predicate IsPermutation(perm: seq<nat>, n: nat)
  {
    |perm| == n && (forall i :: 0 <= i < n ==> perm[i] < n) && Distinct(perm)
  }

  /** The list `xs` after a shuffle that moved the element at `perm[i]` to position `i`. */
  function Shuffled<T>(xs: seq<T>, perm: seq<nat>): (r: seq<T>)
    requires IsPermutation(perm, |xs|)
    ensures |r| == |xs| && forall i :: 0 <= i < |r| ==> r[i] == xs[perm[i]]
  {
    seq(|perm|, i requires 0 <= i < |perm| => xs[perm[i]])
  }

  /** The elements of a three-element list, one occurrence each. */
  lemma ThreeElements<T>(s: seq<T>)
    requires |s| == 3
    ensures multiset(s) == multiset{s[0]} + multiset{s[1]} + multiset{s[2]}
  {
    assert s == [s[0]] + [s[1]] + [s[2]];
  }

  /** Shuffling three elements only rearranges them: the same elements, each as often as before. */
  lemma ShuffledMultiset<T>(xs: seq<T>, perm: seq<nat>)
    requires |xs| == 3 && IsPermutation(perm, 3)
    ensures multiset(Shuffled(xs, perm)) == multiset(xs)
  {
    var s := Shuffled(xs, perm);
    ThreeElements(s);
    ThreeElements(xs);
    assert perm[0] != perm[1] && perm[0] != perm[2] && perm[1] != perm[2];
  }

  /** A shuffle of distinct elements has distinct elements. */
  lemma ShuffledDistinct<T>(xs: seq<T>, perm: seq<nat>)
    requires IsPermutation(perm, |xs|) && Distinct(xs)
    ensures Distinct(Shuffled(xs, perm))
  {
  }

  /** The text of `_create_final_prompt` before the original prompt, between the two fields, and after the refinements. */
  const FinalHead: string := "Original prompt: "
  const FinalMiddle: string := "\n\n        Please provide a refined response incorporating these suggested improvements:\n        "
  const FinalTail: string := "\n\n        Give your best, most comprehensive answer incorporating these refinements."

  class ModelDiscussionSystem {
    const modelMap: Dict<string, string>
    const reverseMap: Dict<string, string>

    /** The two maps hold what `__init__` puts in them (see the constructor). */
    ghost predicate Valid()
    {
      modelMap == ModelMapItems && reverseMap == ReverseMapItems
    }

    /** `__init__`: `model_map` from its display and `reverse_map` as its inversion. */
    constructor ()
      ensures modelMap == FromItems(ModelMapItems) && reverseMap == Invert(modelMap)
      ensures Valid()
    {
      modelMap := FromItems(ModelMapItems);
      reverseMap := Invert(FromItems(ModelMapItems));
      new;
      FixedMaps();
    }

    /** Each of the two maps holds exactly three entries: the three labels and the three model names. */
    lemma MapsCoverLabelsAndModels()
      requires Valid()
      ensures WellFormed(modelMap) && WellFormed(reverseMap)
      ensures forall l :: l in Keys(modelMap) <==> l == "R1" || l == "R2" || l == "R3"
      ensures forall m :: m in Keys(reverseMap) <==> m == "OpenAI" || m == "Claude" || m == "Gemini"
    {
      ModelMapKeys();
      ReverseMapKeys();
    }

    /** `model_map` and `reverse_map` undo each other: `model_map[l] == m` exactly when `reverse_map[m] == l`. */
    lemma MapsAreMutualInverses()
      requires Valid()
      ensures forall l, m :: Lookup(modelMap, l) == Some(m) <==> Lookup(reverseMap, m) == Some(l)
    {
      FixedMaps();
      InvertIsInverse(modelMap);
    }

    /** `list(self.reverse_map.values())`: the labels in the order of the `model_map` display. */
    function LabelList(): (labels: seq<string>)
      requires Valid()
      ensures labels == ["R1", "R2", "R3"]
    {
      Values(reverseMap)
    }

    /**
     * The labelling of `get_initial_responses`: the labels shuffled by `perm`
     * and `{labels[i]: resp for i, resp in enumerate(responses)}`, where
     * `responses` are the three first replies in dispatch order.
     */
    method InitialResponses(responses: seq<string>, perm: seq<nat>) returns (labelled: Dict<string, string>)
      requires Valid()
      requires |responses| == 3 && IsPermutation(perm, 3)
      ensures WellFormed(labelled)
      ensures forall l :: l in Keys(labelled) <==> l == "R1" || l == "R2" || l == "R3"
      ensures forall i :: 0 <= i < 3 ==> Lookup(labelled, ["R1", "R2", "R3"][perm[i]]) == Some(responses[i])
      ensures Values(labelled) == responses
    {
      var labels := LabelList();
      labels := Shuffled(labels, perm);
      ShuffledDistinct(LabelList(), perm);
      labelled := [];
      for i := 0 to |responses|
        invariant |labelled| == i
        invariant forall k :: 0 <= k < i ==> labelled[k] == (labels[k], responses[k])
      {
        assert labels[i] !in Keys(labelled);
        labelled := Store(labelled, labels[i], responses[i]);
      }
      assert Keys(labelled) == labels;
      forall i | 0 <= i < 3
        ensures Lookup(labelled, ["R1", "R2", "R3"][perm[i]]) == Some(responses[i])
      {
        LookupItem(labelled, labels[i], responses[i]);
      }
      ShuffledLabels(perm);
    }

    /**
     * The model `get_final_response` sends the final prompt to: looked up in
     * the fixed `model_map`; any label other than the three is a `KeyError`.
     */
    function FinalBackend(lab: string): (r: Result<Backend, KeyError>)
      requires Valid()
      ensures r == Success(OpenAI) <==> lab == "R1"
      ensures r == Success(Claude) <==> lab == "R2"
      ensures r == Success(Gemini) <==> lab == "R3"
      ensures r.Failure? <==> lab != "R1" && lab != "R2" && lab != "R3"
      ensures r.Failure? ==> r.error == KeyError(lab)
    {
      assert Keys(modelMap) == ["R1", "R2", "R3"];
      match Lookup(modelMap, lab)
      case None => Failure(KeyError(lab))
      case Some(chosenModel) =>
        if chosenModel == "OpenAI" then Success(OpenAI)
        else if chosenModel == "Claude" then Success(Claude)
        else Success(Gemini)
    }

    /** `_create_final_prompt`: the template filled with the original prompt and the refinements. */
    function FinalPrompt(originalPrompt: string, refinements: string): (r: string)
      ensures |r| == |FinalHead| + |originalPrompt| + |FinalMiddle| + |refinements| + |FinalTail|
      ensures r[..|FinalHead|] == FinalHead
      ensures r[|FinalHead|..|FinalHead| + |originalPrompt|] == originalPrompt
      ensures r[|r| - |FinalTail| - |refinements|..|r| - |FinalTail|] == refinements
      ensures r[|r| - |FinalTail|..] == FinalTail
    {
      FinalHead + originalPrompt + FinalMiddle + refinements + FinalTail
    }

    /** Prompts of the same length filled into the template give different texts unless both fields agree. */
    lemma FinalPromptInjective(p1: string, r1: string, p2: string, r2: string)
      requires |p1| == |p2| && FinalPrompt(p1, r1) == FinalPrompt(p2, r2)
      ensures p1 == p2 && r1 == r2
    {
      var f1, f2 := FinalPrompt(p1, r1), FinalPrompt(p2, r2);
      assert |r1| == |r2|;
      assert p1 == f1[|FinalHead|..|FinalHead| + |p1|] == f2[|FinalHead|..|FinalHead| + |p2|] == p2;
      assert r1 == f1[|f1| - |FinalTail| - |r1|..|f1| - |FinalTail|] == r2;
    }

    /**
     * `get_final_response` up to the backend call: the final prompt and the
     * model it goes to. The prompt is built first; an unknown label then fails.
     */
    function FinalRequest(prompt: string, chosenLabel: string, refinements: string): (r: Result<(Backend, string), KeyError>)
      requires Valid()
      ensures chosenLabel == "R1" ==> r == Success((OpenAI, FinalPrompt(prompt, refinements)))
      ensures chosenLabel == "R2" ==> r == Success((Claude, FinalPrompt(prompt, refinements)))
      ensures chosenLabel == "R3" ==> r == Success((Gemini, FinalPrompt(prompt, refinements)))
      ensures chosenLabel != "R1" && chosenLabel != "R2" && chosenLabel != "R3" ==> r == Failure(KeyError(chosenLabel))
    {
      var finalPrompt := FinalPrompt(prompt, refinements);
      match FinalBackend(chosenLabel)
      case Failure(e) => Failure(e)
      case Success(b) => Success((b, finalPrompt))
    }

    /**
     * The final round reaches the backend that wrote the chosen response only
     * when the shuffle left that response's label in place.
     */
    lemma DispatchIgnoresShuffle(perm: seq<nat>, i: nat)
      requires Valid() && IsPermutation(perm, 3) && i < 3
      ensures FinalBackend(LabelList()[perm[i]]) == Success(DispatchOrder[i]) <==> perm[i] == i
    {
      var l := LabelList()[perm[i]];
      assert FinalBackend(l) == Success(DispatchOrder[perm[i]]);
    }

    /** A shuffle that exchanges R1 and R2 sends the final round for OpenAI's answer to Claude. */
    lemma SwappedLabelsMisroute()
      requires Valid()
      ensures IsPermutation([1, 0, 2], 3)
      ensures Shuffled(LabelList(), [1, 0, 2])[0] == "R2"
      ensures FinalBackend("R2") == Success(Claude) && DispatchOrder[0] == OpenAI
    {
    }

    /** The map from label to the backend whose first reply it hides, for the shuffle `perm`. */
    function AuthorMap(perm: seq<nat>): (m: Dict<string, Backend>)
      requires Valid() && IsPermutation(perm, 3)
      ensures WellFormed(m) && Distinct(Values(m))
      ensures Keys(m) == Shuffled(LabelList(), perm) && Values(m) == DispatchOrder
    {
      var labels := Shuffled(LabelList(), perm);
      ShuffledDistinct(LabelList(), perm);
      var m := seq(3, i requires 0 <= i < 3 => (labels[i], DispatchOrder[i]));
      assert Keys(m) == labels;
      m
    }

    /** The final model chosen through the shuffle's own map, as the labelling intends. */
    function IntendedFinalBackend(perm: seq<nat>, lab: string): (r: Result<Backend, KeyError>)
      requires Valid() && IsPermutation(perm, 3)
      ensures r.Failure? <==> lab != "R1" && lab != "R2" && lab != "R3"
    {
      ShuffledLabels(perm);
      match Lookup(AuthorMap(perm), lab)
      case None => Failure(KeyError(lab))
      case Some(b) => Success(b)
    }

    /** Through the shuffle's own map, the final round goes to the backend that wrote the chosen response. */
    lemma IntendedDispatchReachesAuthor(perm: seq<nat>, i: nat)
      requires Valid() && IsPermutation(perm, 3) && i < 3
      ensures IntendedFinalBackend(perm, LabelList()[perm[i]]) == Success(DispatchOrder[i])
    {
      var m := AuthorMap(perm);
      assert m[i] == (LabelList()[perm[i]], DispatchOrder[i]);
      LookupItem(m, LabelList()[perm[i]], DispatchOrder[i]);
    }
  }

  /** The fixed maps, computed. */
  lemma FixedMaps()
    ensures FromItems(ModelMapItems) == ModelMapItems
    ensures Invert(ModelMapItems) == ReverseMapItems
    ensures Distinct(Values(ModelMapItems))
  {
    ModelMapDisplay();
    ReverseMapDisplay();
  }

  lemma ModelMapDisplay()
    ensures FromItems(ModelMapItems) == ModelMapItems
    ensures Distinct(Values(ModelMapItems))
  {
    ModelMapKeys();
    FromDistinctItems(ModelMapItems);
    ModelMapValues();
  }

  lemma ModelMapKeys()
    ensures Keys(ModelMapItems) == ["R1", "R2", "R3"] && Distinct(Keys(ModelMapItems))
  {
    assert Keys(ModelMapItems) == ["R1", "R2", "R3"];
  }

  lemma ReverseMapKeys()
    ensures Keys(ReverseMapItems) == ["OpenAI", "Claude", "Gemini"] && Distinct(Keys(ReverseMapItems))
  {
    assert Keys(ReverseMapItems) == ["OpenAI", "Claude", "Gemini"];
  }

  lemma ModelMapValues()
    ensures Distinct(Values(ModelMapItems))
  {
    assert Values(ModelMapItems) == ["OpenAI", "Claude", "Gemini"];
  }

  lemma ReverseMapDisplay()
    ensures Invert(ModelMapItems) == ReverseMapItems
  {
    var s := Swapped(ModelMapItems);
    assert s == ReverseMapItems;
    assert Keys(s) == ["OpenAI", "Claude", "Gemini"];
    FromDistinctItems(s);
  }

  /** A shuffle of the three labels holds each of them. */
  lemma ShuffledLabels(perm: seq<nat>)
    requires IsPermutation(perm, 3)
    ensures forall l :: l in Shuffled(["R1", "R2", "R3"], perm) <==> l == "R1" || l == "R2" || l == "R3"
  {
    var labels: seq<string> := ["R1", "R2", "R3"];
    var s := Shuffled(labels, perm);
    forall k | 0 <= k < 3
      ensures labels[k] in s
    {
      var j := PositionOf(perm, k);
      assert s[j] == labels[k];
    }
    forall l | l in s
      ensures l in labels
    {
      var j :| 0 <= j < 3 && s[j] == l;
      assert l == labels[perm[j]];
    }
    assert labels[0] in s && labels[1] in s && labels[2] in s;
  }

  /** Where a permutation of three puts `k`. */
  lemma PositionOf(perm: seq<nat>, k: nat) returns (j: nat)
    requires IsPermutation(perm, 3) && k < 3
    ensures j < 3 && perm[j] == k
  {
    if perm[0] == k {
      j := 0;
    } else if perm[1] == k {
      j := 1;
    } else {
      assert perm[0] != perm[1];
      j := 2;
    }
  }
}
