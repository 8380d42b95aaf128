/** The full title shown for a post: its icon, a space, its title, trimmed. */
module Posts {
  import opened Wrappers
  import opened JsString

  /** `` `${icon ?? ""} ${title}`.trim() ``: a missing icon is the empty string. */
  function FullTitle(icon: Option<string>, title: string): (r: string)
    ensures r == [] || (!IsWhitespace(r[0]) && !IsWhitespace(r[|r| - 1]))
    ensures |r| <= |icon.GetOr("")| + 1 + |title|
  {
    Trim(icon.GetOr("") + " " + title)
  }

  /** Without an icon the full title is the trimmed title: the separating space disappears. */
  lemma NoIconIsTrimmedTitle(title: string)
    ensures FullTitle(None, title) == Trim(title)
    ensures FullTitle(Some(""), title) == FullTitle(None, title)
  {
    assert "" + " " + title == " " + title;
    TrimSkipsLeadingWhitespace(" ", title);
  }

  /** An icon and a title with no white space at their ends are joined by exactly one space. */
  lemma IconAndTitleJoined(icon: string, title: string)
    requires icon != [] && !IsWhitespace(icon[0])
    requires title != [] && !IsWhitespace(title[|title| - 1])
    ensures FullTitle(Some(icon), title) == icon + " " + title
  {
    var x := icon + " " + title;
    assert x[0] == icon[0] && x[|x| - 1] == title[|title| - 1];
    var none: string := [];
    TrimAround(none, x, none);
    assert none + x + none == x;
  }

  /** A plain title with no icon is shown unchanged. */
  lemma TitleAloneUnchanged(title: string)
    requires title == [] || (!IsWhitespace(title[0]) && !IsWhitespace(title[|title| - 1]))
    ensures FullTitle(None, title) == title
  {
    NoIconIsTrimmedTitle(title);
    var none: string := [];
    TrimAround(none, title, none);
    assert none + title + none == title;
  }

  /** The full title is empty exactly when icon and title are both blank. */
  lemma EmptyFullTitle(icon: Option<string>, title: string)
    ensures FullTitle(icon, title) == [] <==> AllWhitespace(icon.GetOr("")) && AllWhitespace(title)
  {
    var i := icon.GetOr("");
    var s := i + " " + title;
    TrimEmptyIffWhitespace(s);
    if AllWhitespace(s) {
      forall k | 0 <= k < |i| ensures IsWhitespace(i[k]) { assert s[k] == i[k]; }
      forall k | 0 <= k < |title| ensures IsWhitespace(title[k]) { assert s[|i| + 1 + k] == title[k]; }
    }
  }
}
