/**
 * The clone URL built by the generator's constructor (testgenerator.py lines 17-20): an https
 * URL gets the access token embedded as `https://<token>@...`; any other URL is used as given.
 */
module RepoUrl {
  import opened Text

  const Https := "https://"

  /** The credentials prefix that replaces each "https://". */
  function Credentials(token: string): string {
    Https + token + "@"
  }

  /** `self.repo_url`: `repo_url.replace('https://', f'https://{token}@')` for an https URL. */
  function Authenticated(url: string, token: string): (r: string)
    ensures !StartsWith(url, Https) ==> r == url
    ensures StartsWith(url, Https) ==> StartsWith(r, Credentials(token))
  {
    if StartsWith(url, Https) then
      AuthenticatedHead(url, token);
      ReplaceAll(url, Https, Credentials(token))
    else url
  }

  lemma AuthenticatedHead(url: string, token: string)
    requires StartsWith(url, Https)
    ensures StartsWith(ReplaceAll(url, Https, Credentials(token)), Credentials(token))
  {
    assert url == Https + url[|Https|..];
    ReplaceAllHead(Https, url[|Https|..], Credentials(token));
  }

  /** A URL with one "https://", at its start, gets the token once and keeps the rest. */
  lemma EmbedsOnce(token: string, rest: string)
    requires !Contains(rest, Https)
    ensures Authenticated(Https + rest, token) == Credentials(token) + rest
  {
    var url := Https + rest;
    assert url[..|Https|] == Https;
    ReplaceAllHead(Https, rest, Credentials(token));
    ReplaceAllAbsent(rest, Https, Credentials(token));
  }

  /**
   * `replace` rewrites every "https://", not only the scheme: a second one later in the URL
   * gets the token as well.
   */
  lemma EmbedsEveryOccurrence(token: string, a: string, b: string)
    requires 'h' !in a && !Contains(b, Https)
    ensures Authenticated(Https + a + Https + b, token) == Credentials(token) + a + Credentials(token) + b
  {
    var c := Credentials(token);
    var rest := a + (Https + b);
    Regroup(Https, a, Https, b);
    SchemeFirst(rest, token);
    AfterScheme(a, b, c);
    Regroup(c, a, c, b);
  }

  /** After the scheme: a stretch with no 'h' is kept, and the second "https://" is rewritten. */
  lemma AfterScheme(a: string, b: string, c: string)
    requires 'h' !in a && !Contains(b, Https)
    ensures ReplaceAll(a + (Https + b), Https, c) == a + (c + b)
  {
    forall k | 0 <= k < |a| ensures a[k] != Https[0] {
      assert a[k] in a;
    }
    ReplaceAllSkip(a, Https + b, Https, c);
    ReplaceAllHead(Https, b, c);
    ReplaceAllAbsent(b, Https, c);
  }

  /** A URL that starts with the scheme gets the credentials in its place. */
  lemma SchemeFirst(rest: string, token: string)
    ensures Authenticated(Https + rest, token) == Credentials(token) + ReplaceAll(rest, Https, Credentials(token))
  {
    assert (Https + rest)[..|Https|] == Https;
    ReplaceAllHead(Https, rest, Credentials(token));
  }
}
