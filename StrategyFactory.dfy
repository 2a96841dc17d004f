/**
 * Choosing the analysis strategy for a requested AI back end: the factory holds the strategies
 * in registration order and hands out the first one registered for the requested model type.
 */
module StrategyFactory {
  import opened Outcomes
  import opened Models

  /** A registered strategy: the model type it declares and the strategy itself. */
  datatype StrategyEntry<S> = StrategyEntry(modelType: AiModelType, strategy: S)

  /** The position of the first entry registered for the model type, if any. */
  function FirstIndex<S>(entries: seq<StrategyEntry<S>>, modelType: AiModelType): (r: Option<nat>)
    ensures r.Some? ==> r.value < |entries| && entries[r.value].modelType == modelType
    ensures r.Some? ==> forall j :: 0 <= j < r.value ==> entries[j].modelType != modelType
    ensures r.None? <==> forall j :: 0 <= j < |entries| ==> entries[j].modelType != modelType
  {
    if entries == [] then None
    else if entries[0].modelType == modelType then Some(0)
    else
      match FirstIndex(entries[1..], modelType)
      case None => None
      case Some(i) => Some(i + 1)
  }

  /** The message of the ArgumentException thrown when nothing is registered for the type. */
  function NotFoundMessage(modelType: AiModelType): string {
    "No strategy found for model type " + modelType.Name()
  }

  /**
   * The factory over its strategies. The sequence is fixed at construction (a readonly field),
   * so the lookup is a function of the requested type alone.
   */
  datatype CodeAnalysisStrategyFactory<S> = CodeAnalysisStrategyFactory(strategies: seq<StrategyEntry<S>>)
  {
    /** `FirstOrDefault(s => s.ModelType == modelType) ?? throw`. */
    function GetStrategy(modelType: AiModelType): (r: Result<StrategyEntry<S>>)
      ensures r.Success? ==> r.value.modelType == modelType
      ensures r.Success? ==> exists i: nat :: FirstRegisteredAt(i, modelType) && r.value == strategies[i]
      ensures r.Failure? <==> forall j :: 0 <= j < |strategies| ==> strategies[j].modelType != modelType
      ensures r.Failure? ==> r.message == NotFoundMessage(modelType)
    {
      match FirstIndex(strategies, modelType)
      case None => Failure(NotFoundMessage(modelType))
      case Some(i) =>
        assert FirstRegisteredAt(i, modelType);
        Success(strategies[i])
    }

    /** Entry i is registered for the type and no earlier entry is. */
    predicate FirstRegisteredAt(i: nat, modelType: AiModelType) {
      && i < |strategies|
      && strategies[i].modelType == modelType
      && forall j :: 0 <= j < i ==> strategies[j].modelType != modelType
    }
  }

  /** The first matching entry is the one handed out, whatever is registered after it. */
  lemma GetStrategyFirstMatch<S>(factory: CodeAnalysisStrategyFactory<S>, i: nat, modelType: AiModelType)
    requires factory.FirstRegisteredAt(i, modelType)
    ensures factory.GetStrategy(modelType) == Success(factory.strategies[i])
  {
    var r := factory.GetStrategy(modelType);
    var k: nat :| factory.FirstRegisteredAt(k, modelType) && r.value == factory.strategies[k];
    assert k == i;
  }

  /** Registering more strategies after a match does not change which strategy is handed out. */
  lemma {:induction false} LaterRegistrationsIgnored<S>(
    entries: seq<StrategyEntry<S>>, later: seq<StrategyEntry<S>>, modelType: AiModelType)
    requires CodeAnalysisStrategyFactory(entries).GetStrategy(modelType).Success?
    ensures CodeAnalysisStrategyFactory(entries + later).GetStrategy(modelType)
      == CodeAnalysisStrategyFactory(entries).GetStrategy(modelType)
  {
    var factory := CodeAnalysisStrategyFactory(entries);
    var i: nat :| factory.FirstRegisteredAt(i, modelType) && factory.GetStrategy(modelType).value == entries[i];
    var extended := CodeAnalysisStrategyFactory(entries + later);
    assert extended.FirstRegisteredAt(i, modelType) by {
      assert forall j :: 0 <= j <= i ==> (entries + later)[j] == entries[j];
    }
    GetStrategyFirstMatch(extended, i, modelType);
  }

  /**
   * The application's registration, one strategy per back end: each requested type is served
   * by its own strategy.
   */
  lemma OneStrategyPerBackEnd<S>(huggingFace: S, openAi: S)
    ensures var factory := CodeAnalysisStrategyFactory(
      [StrategyEntry(HuggingFace, huggingFace), StrategyEntry(OpenAI, openAi)]);
      && factory.GetStrategy(HuggingFace) == Success(StrategyEntry(HuggingFace, huggingFace))
      && factory.GetStrategy(OpenAI) == Success(StrategyEntry(OpenAI, openAi))
  {
    var factory := CodeAnalysisStrategyFactory(
      [StrategyEntry(HuggingFace, huggingFace), StrategyEntry(OpenAI, openAi)]);
    GetStrategyFirstMatch(factory, 0, HuggingFace);
    GetStrategyFirstMatch(factory, 1, OpenAI);
  }
}
