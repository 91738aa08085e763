/** Reading the storage destination out of the GIST_LINK environment value. */
module GistLink {
  import opened Outcomes
  import opened Text

  /** The two halves of `username/gistid`. */
  datatype GistId = GistId(username: string, gistid: string)

  const Separator: char := '/'

  /** The destination check at lines 67-74: strip the GIST_LINK value (empty when unset),
      split it at "/", and accept exactly two non-empty parts.
      `env` is the variable's value, `None` when it is unset. */
  function ParseGistLink(env: Option<string>): (r: Result<GistId>)
    ensures r == Err(MissingGistLink) <==> AllSpace(env.GetOr(""))
    ensures r.Err? ==> r.error == MissingGistLink || r.error == MalformedGistLink
    ensures r.Ok? ==> var g := r.value;
              && g.username != "" && g.gistid != ""
              && Separator !in g.username && Separator !in g.gistid
              && Strip(env.GetOr("")) == g.username + [Separator] + g.gistid
  {
    var link := Strip(env.GetOr(""));
    StripEmpty(env.GetOr(""));
    if link == "" then Err(MissingGistLink)
    else
      var parts := Split(link, Separator);
      if |parts| != 2 || parts[0] == "" || parts[1] == "" then Err(MalformedGistLink)
      else
        assert Join(parts, Separator) == parts[0] + [Separator] + parts[1];
        Ok(GistId(parts[0], parts[1]))
  }

  /** Conversely, a value that strips to `username/gistid`, both non-empty and free
      of "/", is accepted with exactly those two parts, unmodified. */
  lemma ParseGistLinkAccepts(env: Option<string>, username: string, gistid: string)
    requires username != "" && gistid != ""
    requires Separator !in username && Separator !in gistid
    requires Strip(env.GetOr("")) == username + [Separator] + gistid
    ensures ParseGistLink(env) == Ok(GistId(username, gistid))
  {
    var parts := [username, gistid];
    assert Join(parts, Separator) == username + [Separator] + gistid by {
      assert parts[1..] == [gistid];
    }
    SplitJoin(parts, Separator);
  }
}
