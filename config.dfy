/** The stream address the bridge connects to (gotify_teams_bridge.py:32):
    the configured websocket URL with the access token as its `token`
    query parameter. */
module Config {

  function StreamUrl(base: string, token: string): string
  {
    base + "?token=" + token
  }

  /** The address starts with the configured URL and ends with the token,
      joined by `?token=`; for a given URL, different tokens give
      different addresses. */
  lemma StreamUrlParts(base: string, token: string)
    ensures var u := StreamUrl(base, token);
      && u[..|base|] == base
      && u[|base|..|base| + 7] == "?token="
      && u[|base| + 7..] == token
  {
  }

  /** The token is always introduced by a `?` of its own, even when the
      configured URL already carries a query string: such a URL ends up
      with a second `?` rather than an `&`. */
  lemma StreamUrlQueryMarks(base: string, token: string)
    ensures multiset(StreamUrl(base, token))['?'] == multiset(base)['?'] + 1 + multiset(token)['?']
    ensures '?' in base ==> multiset(StreamUrl(base, token))['?'] >= 2
  {
    StreamUrlParts(base, token);
    assert StreamUrl(base, token) == base + "?token=" + token;
    assert multiset("?token=")['?'] == 1;
  }

  lemma StreamUrlInjective(base: string, t1: string, t2: string)
    requires StreamUrl(base, t1) == StreamUrl(base, t2)
    ensures t1 == t2
  {
    StreamUrlParts(base, t1);
    StreamUrlParts(base, t2);
  }
}
