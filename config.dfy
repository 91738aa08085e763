/** `main`: pick at most ten URLs, read GIST_LINK, and assemble the process config
    that pushes one domain per URL to the group "main" stored in a gist. */
module ProcessConfig {
  import opened Outcomes
  import opened Yaml
  import opened Text
  import opened Extraction
  import opened GistLink

  /** Most URLs the generated config subscribes to. */
  const SampleSize: nat := 10
  /** Prefix of the generated domain names. */
  const DomainPrefix: string := "auto-"
  /** The one group the generated config defines. */
  const MainGroup: string := "main"

  datatype Domain = Domain(name: string, enable: bool, domain: string, sub: seq<string>, pushTo: seq<string>)
  datatype Crawl = Crawl(enable: bool)
  datatype Regularize = Regularize(enable: bool, locate: bool, residential: bool, bits: int)
  datatype Group = Group(emoji: bool, list: bool, targets: map<string, string>, regularize: Regularize)
  datatype StorageItem = StorageItem(username: string, gistid: string, filename: string)
  datatype Storage = Storage(engine: string, items: map<string, StorageItem>)
  datatype Config = Config(domains: seq<Domain>, crawl: Crawl, groups: map<string, Group>, storage: Storage)

  // ---------------------------------------------------------------------------
  // Selection

  /** `selected` is what lines 59-62 may pick from `urls`: all of them, in order, when
      there are at most ten, otherwise ten entries drawn at distinct positions. */
  predicate IsSelection(urls: seq<string>, selected: seq<string>) {
    && (|urls| <= SampleSize ==> selected == urls)
    && (|urls| > SampleSize ==> |selected| == SampleSize)
    && (forall u :: u in selected ==> u in urls)
    && (Distinct(urls) ==> Distinct(selected))
  }

  /** `urls if len(urls) <= 10 else random.sample(urls, 10)`; which positions the
      sample draws is left open. */
  method Select(urls: seq<string>) returns (selected: seq<string>)
    ensures IsSelection(urls, selected)
  {
    if |urls| <= SampleSize {
      selected := urls;
    } else {
      var first: seq<nat> := seq(SampleSize, k requires 0 <= k => k);
      assert forall k :: 0 <= k < SampleSize ==> first[k] == k;
      assert |first| == SampleSize
        && (forall k :: 0 <= k < SampleSize ==> first[k] < |urls|)
        && (forall k, l :: 0 <= k < l < SampleSize ==> first[k] != first[l]);
      var picks: seq<nat> :| |picks| == SampleSize
        && (forall k :: 0 <= k < SampleSize ==> picks[k] < |urls|)
        && (forall k, l :: 0 <= k < l < SampleSize ==> picks[k] != picks[l]);
      selected := seq(SampleSize, k requires 0 <= k < SampleSize => urls[picks[k]]);
      forall u | u in selected ensures u in urls {
        var k :| 0 <= k < SampleSize && selected[k] == u;
        assert urls[picks[k]] == u;
      }
    }
  }

  // ---------------------------------------------------------------------------
  // Domains

  /** What the loop at lines 77-85 produces for `selected`: domain i, counting from 1,
      is named "auto-i", is enabled, has an empty domain, subscribes to the i-th URL
      alone and pushes to "main". */
  predicate DomainsFor(selected: seq<string>, domains: seq<Domain>) {
    && |domains| == |selected|
    && forall k :: 0 <= k < |domains| ==>
         domains[k] == Domain(DomainPrefix + DecimalString(k + 1), true, "", [selected[k]], [MainGroup])
  }

  /** The URLs the domains subscribe to, domain after domain. */
  function SubscribedUrls(domains: seq<Domain>): seq<string> {
    if domains == [] then [] else SubscribedUrls(domains[..|domains| - 1]) + domains[|domains| - 1].sub
  }

  /** The loop at lines 77-85: one domain record per selected URL, numbered from 1. */
  method BuildDomains(selected: seq<string>) returns (domains: seq<Domain>)
    ensures DomainsFor(selected, domains)
  {
    domains := [];
    for k := 0 to |selected|
      invariant DomainsFor(selected[..k], domains)
    {
      var i := k + 1;
      var url := selected[k];
      domains := domains + [Domain(DomainPrefix + DecimalString(i), true, "", [url], [MainGroup])];
    }
    assert selected[..|selected|] == selected;
  }

  /** The generated names never clash. */
  lemma DomainNamesDistinct(selected: seq<string>, domains: seq<Domain>)
    requires DomainsFor(selected, domains)
    ensures forall j, k :: 0 <= j < k < |domains| ==> domains[j].name != domains[k].name
  {
    forall j, k | 0 <= j < k < |domains| ensures domains[j].name != domains[k].name {
      var a, b := DecimalString(j + 1), DecimalString(k + 1);
      if domains[j].name == domains[k].name {
        assert (DomainPrefix + a)[|DomainPrefix|..] == a;
        assert (DomainPrefix + b)[|DomainPrefix|..] == b;
        DecimalStringInjective(j + 1, k + 1);
      }
    }
  }

  /** There is one domain per selected URL, in selection order. */
  lemma {:induction false} DomainsSubscribe(selected: seq<string>, domains: seq<Domain>)
    requires DomainsFor(selected, domains)
    ensures SubscribedUrls(domains) == selected
    decreases |domains|
  {
    if domains != [] {
      var n := |domains| - 1;
      assert DomainsFor(selected[..n], domains[..n]) by {
        forall k | 0 <= k < n ensures domains[..n][k] == Domain(DomainPrefix + DecimalString(k + 1), true, "", [selected[..n][k]], [MainGroup]) {
          assert domains[..n][k] == domains[k] && selected[..n][k] == selected[k];
        }
      }
      DomainsSubscribe(selected[..n], domains[..n]);
      assert selected == selected[..n] + [selected[n]];
    }
  }

  // ---------------------------------------------------------------------------
  // The config document

  /** Output formats pushed to the gist, each as target name and file name. */
  const ClashTarget: string := "clash"
  const SingboxTarget: string := "singbox"
  const V2rayTarget: string := "v2ray"

  /** Storage item serving `target` of the main group. */
  function ItemName(target: string): string {
    MainGroup + "-" + target
  }

  /** The `config` literal at lines 87-129. */
  function AssembleConfig(domains: seq<Domain>, gist: GistId): (c: Config)
    ensures c.domains == domains
    ensures !c.crawl.enable
    ensures c.groups.Keys == {MainGroup}
    ensures c.groups[MainGroup].emoji && c.groups[MainGroup].list
    ensures c.groups[MainGroup].regularize == Regularize(true, true, true, 2)
    ensures c.groups[MainGroup].targets.Keys == {ClashTarget, SingboxTarget, V2rayTarget}
    ensures forall t :: t in c.groups[MainGroup].targets ==>
              c.groups[MainGroup].targets[t] == ItemName(t) && ItemName(t) in c.storage.items
    ensures c.storage.engine == "gist"
    ensures c.storage.items.Keys == {ItemName(ClashTarget), ItemName(SingboxTarget), ItemName(V2rayTarget)}
    ensures forall n :: n in c.storage.items ==>
              c.storage.items[n].username == gist.username && c.storage.items[n].gistid == gist.gistid
    ensures c.storage.items[ItemName(ClashTarget)].filename == "clash.yaml"
    ensures c.storage.items[ItemName(SingboxTarget)].filename == "singbox.json"
    ensures c.storage.items[ItemName(V2rayTarget)].filename == "v2ray.txt"
    ensures forall m, n :: m in c.storage.items && n in c.storage.items && m != n ==>
              c.storage.items[m].filename != c.storage.items[n].filename
  {
    var item := (filename: string) => StorageItem(gist.username, gist.gistid, filename);
    assert ItemName(ClashTarget)[5] != ItemName(V2rayTarget)[5];
    assert |ItemName(SingboxTarget)| != |ItemName(ClashTarget)| == |ItemName(V2rayTarget)|;
    Config(
      domains,
      Crawl(false),
      map[MainGroup := Group(
        true, true,
        map[ClashTarget := ItemName(ClashTarget),
            SingboxTarget := ItemName(SingboxTarget),
            V2rayTarget := ItemName(V2rayTarget)],
        Regularize(true, true, true, 2))],
      Storage("gist",
        map[ItemName(ClashTarget) := item("clash.yaml"),
            ItemName(SingboxTarget) := item("singbox.json"),
            ItemName(V2rayTarget) := item("v2ray.txt")]))
  }

  // ---------------------------------------------------------------------------
  // The whole run

  /** The document `main` works on (line 52): the parsed one, or an empty list when
      that is falsy. The substitution never changes what is extracted. */
  function Loaded(v: Value): (r: Value)
    ensures r == v || r == List([])
    ensures Extract(r) == Extract(v)
  {
    assert Extract(List([])) == [];
    Or(v, List([]))
  }

  /** `main` without its I/O: `document` is the parsed input file (`None` when the file
      does not exist) and `gistLink` the GIST_LINK environment value (`None` when unset).
      Fails as the script exits; otherwise returns the config it would write. */
  method GenerateProcessConfig(document: Option<Value>, gistLink: Option<string>) returns (r: Result<Config>)
    ensures document.None? ==> r == Err(MissingInput)
    ensures document.Some? && Extract(Loaded(document.value)) == [] ==> r == Err(EmptyExtraction)
    ensures document.Some? && Extract(Loaded(document.value)) != [] && ParseGistLink(gistLink).Err? ==>
              r == Err(ParseGistLink(gistLink).error)
    ensures document.Some? && Extract(Loaded(document.value)) != [] && ParseGistLink(gistLink).Ok? ==> r.Ok?
    ensures r.Ok? ==>
              && document.Some? && ParseGistLink(gistLink).Ok?
              && var urls, c := Extract(Loaded(document.value)), r.value;
              && IsSelection(urls, SubscribedUrls(c.domains))
              && Distinct(SubscribedUrls(c.domains))
              && DomainsFor(SubscribedUrls(c.domains), c.domains)
              && c == AssembleConfig(c.domains, ParseGistLink(gistLink).value)
  {
    if document.None? {
      return Err(MissingInput);
    }
    var data := Loaded(document.value);
    var urls := ExtractUrls(data);
    if urls == [] {
      return Err(EmptyExtraction);
    }
    var selected := Select(urls);
    var gist := ParseGistLink(gistLink);
    if gist.Err? {
      return Err(gist.error);
    }
    var domains := BuildDomains(selected);
    DomainsSubscribe(selected, domains);
    ExtractWellFormed(data);
    r := Ok(AssembleConfig(domains, gist.value));
  }

  /** Filtering `[a, a, b]` keeps `a` and `b` once each. */
  lemma CleanRepeat(a: string, b: string)
    requires Qualifies(a) && Qualifies(b) && a != b
    ensures Clean([a, a, b]) == [a, b]
  {
    CleanFromOne([], a);
    CleanFromAppend([], [a], [a, b]);
    CleanFromOne([a], a);
    CleanFromAppend([a], [a], [b]);
    CleanFromOne([a], b);
    assert [a] + [a, b] == [a, a, b] && [a] + [b] == [a, b];
    assert Keep([], a) == [a] && Keep([a], a) == [a] && Keep([a], b) == [a, b];
    assert Clean([a, a, b]) == CleanFrom([], [a, a, b]);
  }

  /** The list `[a, a, b]` of already stripped strings offers each item as it stands. */
  lemma ExampleCandidates(a: string, b: string)
    requires Trimmed(a) && Trimmed(b)
    ensures ListCandidates([Str(a), Str(a), Str(b)]) == [a, a, b]
  {
    StripTrimmed(a);
    StripTrimmed(b);
    var items := [Str(a), Str(a), Str(b)];
    assert ItemCandidates(Str(a)) == [a] && ItemCandidates(Str(b)) == [b];
    assert [Str(a)][..0] == [];
    assert ListCandidates([Str(a)]) == [a];
    assert [Str(a), Str(a)][..1] == [Str(a)];
    assert ListCandidates([Str(a), Str(a)]) == [a, a];
    assert items[..2] == [Str(a), Str(a)];
  }

  /** A document listing URL `a` twice and then `b` under "subs" yields `a` and `b`
      once each, in that order. */
  lemma ExampleExtract(a: string, b: string)
    requires Qualifies(a) && Qualifies(b) && Trimmed(a) && Trimmed(b) && a != b
    ensures Extract(Dict([("subs", List([Str(a), Str(a), Str(b)]))])) == [a, b]
  {
    var items := [Str(a), Str(a), Str(b)];
    ExampleCandidates(a, b);
    CleanRepeat(a, b);
    ExtractSubsOnly([("subs", List(items))]);
  }

  /** GIST_LINK "alice/gid1" names user "alice" and gist "gid1". */
  lemma ExampleGistLink()
    ensures ParseGistLink(Some("alice/gid1")) == Ok(GistId("alice", "gid1"))
  {
    StripTrimmed("alice/gid1");
    assert "alice/gid1" == "alice" + [Separator] + "gid1";
    ParseGistLinkAccepts(Some("alice/gid1"), "alice", "gid1");
  }
}
