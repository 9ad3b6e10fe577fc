// The check that a video belongs to the configured preacher: every English
// name token, or every Sinhala name token, must score above 85 against the
// title or the description.
//
// The fuzzy score (`partial_ratio` after `extractOne`'s own normalisation)
// is a parameter: any function from a token and a text to a score.

module TitleMatcher {
  const TokenThreshold: int := 85

  /** A token's score: the better of title and description; an empty description scores 0. */
  function TokenScore(token: string, title: string, description: string, ratio: (string, string) -> nat): (r: nat)
    ensures r >= ratio(token, title)
    ensures description != [] ==> r >= ratio(token, description)
    ensures r == ratio(token, title) || (description != [] && r == ratio(token, description))
  {
    var titleScore := ratio(token, title);
    var descScore := if description != [] then ratio(token, description) else 0;
    if titleScore >= descScore then titleScore else descScore
  }

  /** `all(s > 85 for s in scores)`, scores computed token by token. */
  function AllTokensPass(tokens: seq<string>, title: string, description: string, ratio: (string, string) -> nat): (r: bool)
    ensures r <==> forall i :: 0 <= i < |tokens| ==> TokenScore(tokens[i], title, description, ratio) > TokenThreshold
  {
    if tokens == [] then true
    else
      var rest := AllTokensPass(tokens[1..], title, description, ratio);
      assert forall i :: 1 <= i < |tokens| ==> tokens[i] == tokens[1..][i - 1];
      TokenScore(tokens[0], title, description, ratio) > TokenThreshold && rest
  }

  /** A language passes when it has tokens and all of them pass. */
  predicate LanguageOk(tokens: seq<string>, title: string, description: string, ratio: (string, string) -> nat) {
    tokens != [] && AllTokensPass(tokens, title, description, ratio)
  }

  /**
   * `is_thero_in_content`: no tokens at all accepts every video; otherwise
   * the video is accepted when the English tokens pass or the Sinhala ones
   * do, a language without tokens never passing.
   */
  function IsTheroInContent(title: string, description: string, english: seq<string>, sinhala: seq<string>,
                            ratio: (string, string) -> nat): (r: bool)
    ensures english == [] && sinhala == [] ==> r
    ensures english != [] || sinhala != [] ==>
              (r <==>
                 ((english != [] && forall i :: 0 <= i < |english| ==> TokenScore(english[i], title, description, ratio) > TokenThreshold)
                  || (sinhala != [] && forall i :: 0 <= i < |sinhala| ==> TokenScore(sinhala[i], title, description, ratio) > TokenThreshold)))
  {
    if english == [] && sinhala == [] then true
    else LanguageOk(english, title, description, ratio) || LanguageOk(sinhala, title, description, ratio)
  }

  /** With one language unconfigured the answer is the other language's alone. */
  lemma OneLanguageDecides(title: string, description: string, english: seq<string>, sinhala: seq<string>,
                           ratio: (string, string) -> nat)
    requires english == [] && sinhala != []
    ensures IsTheroInContent(title, description, english, sinhala, ratio) == LanguageOk(sinhala, title, description, ratio)
  {
  }

  /** A single token scoring 85 or less sinks its language. */
  lemma WeakTokenFailsLanguage(tokens: seq<string>, title: string, description: string, ratio: (string, string) -> nat, k: nat)
    requires k < |tokens| && TokenScore(tokens[k], title, description, ratio) <= TokenThreshold
    ensures !LanguageOk(tokens, title, description, ratio)
  {
  }
}
