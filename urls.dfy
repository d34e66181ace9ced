/** app/urls.ts: path builders with default arguments (an omitted path is `None`). */
module Urls {
  import opened Wrappers

  /** `formatUrl(path = "")` */
  function FormatUrl(path: Option<string>): (r: string)
    ensures path.Some? ==> r == path.value
    ensures path.None? ==> r == ""
  {
    path.GetOr("")
  }

  /** `formatQuestionsUrl(path = "")`: the path under the site root. */
  function FormatQuestionsUrl(path: Option<string>): (r: string)
    ensures |r| >= 1 && r[0] == '/'
    ensures r[1..] == path.GetOr("")
    ensures path.None? ==> r == "/"
  {
    FormatUrl(Some("/" + path.GetOr("")))
  }

  /** `formatQuestionUrl(questionSlug, path = "")` */
  function FormatQuestionUrl(questionSlug: string, path: Option<string>): (r: string)
    ensures r == "/questions/" + questionSlug + path.GetOr("")
    ensures |r| >= 1 && r[0] == '/'
  {
    var below := "questions/" + questionSlug + path.GetOr("");
    var r := FormatQuestionsUrl(Some(below));
    assert r == [r[0]] + r[1..] == "/" + below;
    assert "/" + below == "/questions/" + questionSlug + path.GetOr("");
    r
  }

  /** A question's own URL is a prefix of every URL below it. */
  lemma QuestionUrlIsPrefix(questionSlug: string, path: Option<string>)
    ensures FormatQuestionUrl(questionSlug, None) <= FormatQuestionUrl(questionSlug, path)
  {
    var base := FormatQuestionUrl(questionSlug, None);
    assert base == "/questions/" + questionSlug;
    assert FormatQuestionUrl(questionSlug, path) == base + path.GetOr("");
  }

  /** Distinct slugs give distinct question URLs. */
  lemma QuestionUrlInjective(s1: string, s2: string)
    requires FormatQuestionUrl(s1, None) == FormatQuestionUrl(s2, None)
    ensures s1 == s2
  {
    var prefix := "/questions/";
    assert FormatQuestionUrl(s1, None)[|prefix|..] == s1;
    assert FormatQuestionUrl(s2, None)[|prefix|..] == s2;
  }
}
