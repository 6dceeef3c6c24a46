/**
 * Finding the JSON endpoint the listing page loads its monitor data from
 * (`get_data_url`): the first inline script that mentions the marker is
 * searched for `/content/.*\.json`, and the match is put behind the
 * vendor's domain.
 */
module Endpoint {
  import opened Wrappers
  import opened Text

  const Marker := "g-sync-monitors-specs"
  const Domain := "https://www.nvidia.com"
  const ContentPrefix := "/content/"
  const JsonSuffix := ".json"

  /** What `get_data_url` yields: a URL, `None`, or an `AttributeError` on the missing match. */
  datatype Located =
    | Found(url: string)
    | NoMarkedScript
    | NoPathInMarkedScript

  /** A match of the pattern, as the index of `/content/` and the index of `.json`. */
  datatype Match = Match(start: nat, json: nat)

  /**
   * `t[i..j + 5]` matches `/content/.*\.json`: `/content/` at `i`, `.json` at
   * `j`, and no newline in between, since `.` does not match a newline.
   */
  predicate MatchAt(t: string, i: nat, j: nat) {
    && PrefixAt(t, i, ContentPrefix)
    && i + |ContentPrefix| <= j
    && PrefixAt(t, j, JsonSuffix)
    && '\n' !in t[i + |ContentPrefix|..j]
  }

  /** The end of the line that index `k` of `t` lies on. */
  function LineEnd(t: string, k: nat): (e: nat)
    requires k <= |t|
    ensures k <= e <= |t|
    ensures forall m :: k <= m < e ==> t[m] != '\n'
    ensures e < |t| ==> t[e] == '\n'
  {
    k + IndexOf('\n', t[k..])
  }

  /** The last `.json` that starts within `lo..hi`. */
  function LastJson(t: string, lo: nat, hi: int): (r: Option<nat>)
    ensures r.Some? ==> lo <= r.value <= hi && PrefixAt(t, r.value, JsonSuffix)
    ensures r.Some? ==> forall j: nat :: r.value < j <= hi ==> !PrefixAt(t, j, JsonSuffix)
    ensures r.None? ==> forall j: nat :: lo <= j <= hi ==> !PrefixAt(t, j, JsonSuffix)
    decreases hi - lo
  {
    if hi < lo then None
    else if PrefixAt(t, hi, JsonSuffix) then Some(hi)
    else LastJson(t, lo, hi - 1)
  }

  /** A match from `i` ends at a `.json` on the same line as the end of `/content/`. */
  lemma MatchOnLine(t: string, i: nat, j: nat)
    requires PrefixAt(t, i, ContentPrefix)
    ensures MatchAt(t, i, j) <==>
      i + |ContentPrefix| <= j <= LineEnd(t, i + |ContentPrefix|) && PrefixAt(t, j, JsonSuffix)
  {
    var k := i + |ContentPrefix|;
    var e := LineEnd(t, k);
    if k <= j <= e && PrefixAt(t, j, JsonSuffix) {
      assert forall m :: 0 <= m < j - k ==> t[k..j][m] == t[k + m];
    }
  }

  /** The longest match from `i`: `.*` is greedy, so it runs to the last `.json` on the line. */
  function Greedy(t: string, i: nat): (r: Option<nat>)
    requires PrefixAt(t, i, ContentPrefix)
    ensures r.Some? ==> MatchAt(t, i, r.value)
    ensures r.Some? ==> forall j: nat :: r.value < j ==> !MatchAt(t, i, j)
    ensures r.None? ==> forall j: nat :: !MatchAt(t, i, j)
  {
    var k := i + |ContentPrefix|;
    var r := LastJson(t, k, LineEnd(t, k));
    assert forall j: nat :: MatchAt(t, i, j) <==> k <= j <= LineEnd(t, k) && PrefixAt(t, j, JsonSuffix) by {
      forall j: nat ensures MatchAt(t, i, j) <==> k <= j <= LineEnd(t, k) && PrefixAt(t, j, JsonSuffix) {
        MatchOnLine(t, i, j);
      }
    }
    r
  }

  /** `re.search` from index `from` on: the leftmost start that has a match, with its greedy end. */
  function SearchFrom(t: string, from: nat): (r: Option<Match>)
    ensures r.Some? ==> from <= r.value.start && MatchAt(t, r.value.start, r.value.json)
    ensures r.Some? ==> forall i: nat, j: nat :: from <= i < r.value.start ==> !MatchAt(t, i, j)
    ensures r.Some? ==> forall j: nat :: r.value.json < j ==> !MatchAt(t, r.value.start, j)
    ensures r.None? ==> forall i: nat, j: nat :: from <= i ==> !MatchAt(t, i, j)
    decreases |t| - from
  {
    if |t| <= from then None
    else if PrefixAt(t, from, ContentPrefix) && Greedy(t, from).Some? then
      Some(Match(from, Greedy(t, from).value))
    else
      SearchFrom(t, from + 1)
  }

  /** `re.search('/content/.*\.json', t)`. */
  function Search(t: string): (r: Option<Match>)
    ensures r.None? <==> forall i: nat, j: nat :: !MatchAt(t, i, j)
    ensures r.Some? ==> MatchAt(t, r.value.start, r.value.json)
    ensures r.Some? ==> r.value.start <= r.value.json && r.value.json + |JsonSuffix| <= |t|
    ensures r.Some? ==> forall i: nat, j: nat :: i < r.value.start ==> !MatchAt(t, i, j)
    ensures r.Some? ==> forall j: nat :: r.value.json < j ==> !MatchAt(t, r.value.start, j)
  {
    SearchFrom(t, 0)
  }

  /**
   * `script.text and 'g-sync-monitors-specs' in script.text`; the emptiness
   * test is subsumed by the marker test.
   */
  predicate Marked(script: string): (b: bool)
    ensures b <==> Contains(script, Marker)
  {
    |script| > 0 && Contains(script, Marker)
  }

  /** The vendor's domain followed by a path that the pattern matches as a whole. */
  predicate IsEndpointUrl(url: string) {
    && |Domain| <= |url|
    && url[..|Domain|] == Domain
    && MatchAt(url, |Domain|, |url| - |JsonSuffix|)
  }

  /**
   * What `get_data_url` makes of the marked script: the domain followed by
   * the matched path, or the failure of `match.group(0)` on no match.
   */
  function FromMarked(script: string): (r: Located)
    ensures !r.NoMarkedScript?
    ensures r.Found? <==> exists i: nat, j: nat :: MatchAt(script, i, j)
    ensures r.Found? ==> IsEndpointUrl(r.url)
    ensures r.Found? ==>
      && Search(script).Some?
      && r.url == Domain + script[Search(script).value.start..Search(script).value.json + |JsonSuffix|]
  {
    match Search(script)
    case None => NoPathInMarkedScript
    case Some(m) =>
      assert MatchAt(script, m.start, m.json);
      PrefixedMatch(script, m.start, m.json);
      Found(Domain + script[m.start..m.json + |JsonSuffix|])
  }

  /** A matched path put behind the domain makes an endpoint URL. */
  lemma PrefixedMatch(t: string, i: nat, j: nat)
    requires MatchAt(t, i, j)
    ensures IsEndpointUrl(Domain + t[i..j + |JsonSuffix|])
  {
    var path := t[i..j + |JsonSuffix|];
    var url := Domain + path;
    var c, n := |ContentPrefix|, |JsonSuffix|;
    assert |path| == j + n - i;
    assert url[..|Domain|] == Domain;
    assert url[|Domain|..] == path;
    assert url[|Domain|..|Domain| + c] == path[..c] == t[i..i + c];
    assert url[|url| - n..|url|] == path[|path| - n..] == t[j..j + n];
    assert url[|Domain| + c..|url| - n] == path[c..|path| - n] == t[i + c..j];
  }

  /** The index of the first marked script, or `|scripts|` when none is marked. */
  function FirstMarked(scripts: seq<string>): (k: nat)
    ensures k <= |scripts|
    ensures forall m :: 0 <= m < k ==> !Marked(scripts[m])
    ensures k < |scripts| ==> Marked(scripts[k])
  {
    if scripts == [] || Marked(scripts[0]) then 0 else 1 + FirstMarked(scripts[1..])
  }

  /**
   * `get_data_url` on the page's scripts, in page order: only the first
   * marked script is looked at; without one the result is `None`.
   */
  function Locate(scripts: seq<string>): (r: Located)
    ensures r.NoMarkedScript? <==> forall k :: 0 <= k < |scripts| ==> !Marked(scripts[k])
    ensures FirstMarked(scripts) < |scripts| ==> r == FromMarked(scripts[FirstMarked(scripts)])
  {
    if scripts == [] then NoMarkedScript
    else if Marked(scripts[0]) then FromMarked(scripts[0])
    else
      var r := Locate(scripts[1..]);
      assert FirstMarked(scripts) == 1 + FirstMarked(scripts[1..]);
      assert forall k :: 1 <= k < |scripts| ==> scripts[k] == scripts[1..][k - 1];
      r
  }

  /** What `FromMarked` yields once the search has found `m`. */
  lemma FromMarkedMatch(script: string, m: Match)
    requires Search(script) == Some(m)
    ensures m.json + |JsonSuffix| <= |script|
    ensures FromMarked(script) == Found(Domain + script[m.start..m.json + |JsonSuffix|])
  {
  }

  /** One step of the scan: a marked script decides, any other is skipped. */
  lemma LocateStep(scripts: seq<string>, n: nat)
    requires n < |scripts|
    ensures Locate(scripts[n..]) ==
      if Marked(scripts[n]) then FromMarked(scripts[n]) else Locate(scripts[n + 1..])
  {
    assert scripts[n..][1..] == scripts[n + 1..];
  }

  /** The scan of `get_data_url`: a loop over the scripts that returns at the first marked one. */
  method LocateDataUrl(scripts: seq<string>) returns (r: Located)
    ensures r == Locate(scripts)
  {
    for n := 0 to |scripts|
      invariant Locate(scripts[n..]) == Locate(scripts)
    {
      LocateStep(scripts, n);
      var script := scripts[n];
      if |script| > 0 && Contains(script, Marker) {
        var found := Search(script);
        if found.None? {
          return NoPathInMarkedScript;
        }
        var m := found.value;
        FromMarkedMatch(script, m);
        return Found(Domain + script[m.start..m.json + |JsonSuffix|]);
      }
    }
    assert scripts[|scripts|..] == [];
    return NoMarkedScript;
  }
}
