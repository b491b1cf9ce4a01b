/** The built-in providers, in their canonical order. */
module Providers {
  datatype ProviderKind =
    | Deepseek | DeepseekAnthropic | NvidiaNim | Openai | Atlascloud | WanjieArk | Volcengine | Openrouter
    | XiaomiMimo | Novita | Fireworks | Siliconflow | Arcee | SiliconflowCN | Moonshot | Sglang | Vllm | Ollama
    | Huggingface | Together | Qianfan | OpenaiCodex | Anthropic | Openmodel | Zai | Stepfun | Minimax | Deepinfra
    | Sakana | Custom

  /** The provider at a position of the canonical order. */
  function Nth(n: nat): ProviderKind
    requires n < 30
  {
    match n
    case 0 => Deepseek case 1 => DeepseekAnthropic case 2 => NvidiaNim case 3 => Openai case 4 => Atlascloud
    case 5 => WanjieArk case 6 => Volcengine case 7 => Openrouter case 8 => XiaomiMimo case 9 => Novita
    case 10 => Fireworks case 11 => Siliconflow case 12 => Arcee case 13 => SiliconflowCN case 14 => Moonshot
    case 15 => Sglang case 16 => Vllm case 17 => Ollama case 18 => Huggingface case 19 => Together
    case 20 => Qianfan case 21 => OpenaiCodex case 22 => Anthropic case 23 => Openmodel case 24 => Zai
    case 25 => Stepfun case 26 => Minimax case 27 => Deepinfra case 28 => Sakana case _ => Custom
  }

  function All(): (ps: seq<ProviderKind>)
    ensures |ps| == 30 && forall i :: 0 <= i < 30 ==> ps[i] == Nth(i)
  {
    seq(30, i requires 0 <= i < 30 => Nth(i))
  }

  function Rank(p: ProviderKind): (n: nat)
    ensures n < 30
  {
    match p
    case Deepseek => 0 case DeepseekAnthropic => 1 case NvidiaNim => 2 case Openai => 3 case Atlascloud => 4
    case WanjieArk => 5 case Volcengine => 6 case Openrouter => 7 case XiaomiMimo => 8 case Novita => 9
    case Fireworks => 10 case Siliconflow => 11 case Arcee => 12 case SiliconflowCN => 13 case Moonshot => 14
    case Sglang => 15 case Vllm => 16 case Ollama => 17 case Huggingface => 18 case Together => 19
    case Qianfan => 20 case OpenaiCodex => 21 case Anthropic => 22 case Openmodel => 23 case Zai => 24
    case Stepfun => 25 case Minimax => 26 case Deepinfra => 27 case Sakana => 28 case Custom => 29
  }

  lemma RankOfNth(i: nat)
    requires i < 30
    ensures Rank(Nth(i)) == i
  {
  }

  lemma NthOfRank(p: ProviderKind)
    ensures Nth(Rank(p)) == p
  {
  }

  predicate Distinct(ps: seq<ProviderKind>) { forall i, j :: 0 <= i < j < |ps| ==> ps[i] != ps[j] }

  /** The canonical order lists every provider exactly once. */
  lemma AllListsEach()
    ensures Distinct(All()) && forall p: ProviderKind :: p in All()
  {
    forall i: nat | i < 30 ensures Rank(All()[i]) == i { RankOfNth(i); }
    forall p: ProviderKind ensures p in All() {
      NthOfRank(p);
      assert All()[Rank(p)] == p;
    }
  }
}
