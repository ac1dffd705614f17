/**
  The configuration a typing test is started with: the language and mode that
  select a pool of target texts, and the length of the countdown.
  The text pools themselves are static data; they are modelled abstractly as
  four sequences of strings, so that any content can be plugged in.
 */
module Config {

  /** The two languages a test can be taken in. */
  datatype Language = English | Bengali

  /** Whether the target is a single sentence or a whole paragraph. */
  datatype Mode = Sentence | Paragraph

  /** The four countdown lengths offered to the user. */
  datatype Duration = Secs15 | Secs30 | Secs60 | Secs120 {

    /** The length of the countdown in whole seconds. */
    function Seconds(): (n: int)
      ensures n in {15, 30, 60, 120}
    {
      match this
      case Secs15 => 15
      case Secs30 => 30
      case Secs60 => 60
      case Secs120 => 120
    }
  }

  /** The configuration the application starts with. */
  const DefaultLanguage: Language := English
  const DefaultMode: Mode := Sentence
  const DefaultDuration: Duration := Secs60

  /** The four text tables, one per (language, mode) pair. */
  datatype TextPools = TextPools(
    englishSentences: seq<string>,
    englishParagraphs: seq<string>,
    bengaliSentences: seq<string>,
    bengaliParagraphs: seq<string>)

  /** The table a test draws its target text from. */
  function PoolFor(pools: TextPools, lang: Language, mode: Mode): seq<string>
  {
    match lang
    case English => if mode == Sentence then pools.englishSentences else pools.englishParagraphs
    case Bengali => if mode == Sentence then pools.bengaliSentences else pools.bengaliParagraphs
  }
}
