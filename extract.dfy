/** `extract_urls`: collect the subscription URLs found anywhere in a crawled
    document, keep those that start with "http", drop repeats, keep first-seen order. */
module Extraction {
  import opened Yaml
  import opened Text

  /** Every kept URL starts with this prefix. */
  const Scheme: string := "http"

  /** The keys a mapping inside a list is searched for, in priority order. */
  const CandidateKeys: seq<string> := ["url", "sub", "link"]

  /** A candidate survives the filter: non-empty and starting with "http". */
  predicate Qualifies(u: string) {
    u != "" && Scheme <= u
  }

  predicate Distinct(s: seq<string>) {
    forall i, j :: 0 <= i < j < |s| ==> s[i] != s[j]
  }

  /** Position of the first occurrence of `x` in `s`. */
  function FirstIndex(s: seq<string>, x: string): (k: nat)
    requires x in s
    ensures k < |s| && s[k] == x && x !in s[..k]
  {
    if s[0] == x then 0
    else
      var k := 1 + FirstIndex(s[1..], x);
      assert s[..k] == [s[0]] + s[1..][..k - 1];
      k
  }

  // ---------------------------------------------------------------------------
  // Candidates offered by a list

  /** The value a mapping inside a list offers as its URL (line 21): that of the
      first key among "url", "sub", "link" holding a truthy value, else the value
      of "link", which is then falsy. */
  function DictCandidate(es: seq<(string, Value)>): (r: Value)
    ensures r == Get(es, CandidateKeys[0]) || r == Get(es, CandidateKeys[1]) || r == Get(es, CandidateKeys[2])
  {
    Or(Or(Get(es, CandidateKeys[0]), Get(es, CandidateKeys[1])), Get(es, CandidateKeys[2]))
  }

  /** What one element of a list appends to `urls`: a string, stripped; for a
      mapping, the stripped value picked by `DictCandidate` if that is a string;
      nothing for any other element. */
  function ItemCandidates(item: Value): (r: seq<string>)
    ensures |r| <= 1
    ensures r != [] ==> item.Str? || item.Dict?
    ensures item.Str? ==> r == [Strip(item.s)]
  {
    match item
    case Str(s) => [Strip(s)]
    case Dict(es) =>
      var u := DictCandidate(es);
      if u.Str? then [Strip(u.s)] else []
    case _ => []
  }

  /** What a list appends to `urls`, element by element. */
  function ListCandidates(items: seq<Value>): (r: seq<string>)
    ensures |r| <= |items|
  {
    if items == [] then []
    else ListCandidates(items[..|items| - 1]) + ItemCandidates(items[|items| - 1])
  }

  // ---------------------------------------------------------------------------
  // The filter-and-dedup loop

  /** One turn of the loop: append `u` when it qualifies and was not seen. */
  function Keep(acc: seq<string>, u: string): seq<string> {
    if Qualifies(u) && u !in acc then acc + [u] else acc
  }

  /** The loop over `s`, started with `acc` already kept (and seen). */
  function CleanFrom(acc: seq<string>, s: seq<string>): (r: seq<string>)
    ensures acc <= r
    decreases |s|
  {
    if s == [] then acc else CleanFrom(Keep(acc, s[0]), s[1..])
  }

  /** The whole filter-and-dedup loop over `urls`. */
  function Clean(urls: seq<string>): (r: seq<string>)
    ensures Distinct(r)
    ensures forall u :: u in r <==> u in urls && Qualifies(u)
  {
    CleanFromDistinct([], urls);
    CleanFromMembersAll([], urls);
    CleanFrom([], urls)
  }

  // ---------------------------------------------------------------------------
  // The recursion

  /** The mapping's "subs" value, which the recursion descends into alone when it is a list. */
  function Subs(es: seq<(string, Value)>): Value {
    Get(es, "subs")
  }

  /** `urls` as it stands before the filter loop at one level of the recursion. */
  function Gathered(v: Value): seq<string>
    decreases v, 1
  {
    match v
    case List(items) => ListCandidates(items)
    case Dict(es) =>
      if Subs(es).List? then Extract(Subs(es)) else ExtractValues(v, |es|)
    case _ => []
  }

  /** The results for the first `n` values of mapping `d`, concatenated in order. */
  function ExtractValues(d: Value, n: nat): (r: seq<string>)
    requires d.Dict? && n <= |d.entries|
    ensures forall k :: 0 <= k < |r| ==> Qualifies(r[k])
    decreases d, 0, n
  {
    if n == 0 then [] else ExtractValues(d, n - 1) + Extract(d.entries[n - 1].1)
  }

  /** The value `extract_urls(v)` returns. */
  function Extract(v: Value): (r: seq<string>)
    ensures Distinct(r)
    ensures forall u :: u in r ==> u != "" && Scheme <= u
    decreases v, 2
  {
    Clean(Gathered(v))
  }

  /** Every candidate reached by the same walk, in traversal order, when nothing is
      filtered or deduplicated on the way. */
  function Flatten(v: Value): seq<string>
    decreases v, 1
  {
    match v
    case List(items) => ListCandidates(items)
    case Dict(es) =>
      if Subs(es).List? then Flatten(Subs(es)) else FlattenValues(v, |es|)
    case _ => []
  }

  function FlattenValues(d: Value, n: nat): seq<string>
    requires d.Dict? && n <= |d.entries|
    decreases d, 0, n
  {
    if n == 0 then [] else FlattenValues(d, n - 1) + Flatten(d.entries[n - 1].1)
  }

  // ---------------------------------------------------------------------------
  // Properties of the filter-and-dedup loop

  /** One turn appends `u` or nothing, and appends it exactly when it qualifies and was not seen. */
  lemma KeepStep(acc: seq<string>, u: string)
    ensures Keep(acc, u) == acc || Keep(acc, u) == acc + [u]
    ensures Keep(acc, u) != acc <==> Qualifies(u) && u !in acc
  {
  }

  lemma CleanFromOne(acc: seq<string>, u: string)
    ensures CleanFrom(acc, [u]) == Keep(acc, u)
  {
    assert [u][1..] == [];
  }

  /** Running the loop over `a + b` is running it over `a`, then over `b`. */
  lemma {:induction false} CleanFromAppend(acc: seq<string>, a: seq<string>, b: seq<string>)
    ensures CleanFrom(acc, a + b) == CleanFrom(CleanFrom(acc, a), b)
    decreases |a|
  {
    if a == [] {
      assert a + b == b;
    } else {
      assert (a + b)[0] == a[0] && (a + b)[1..] == a[1..] + b;
      CleanFromAppend(Keep(acc, a[0]), a[1..], b);
    }
  }

  /** The loop keeps what it started with, and adds exactly the qualifying candidates. */
  lemma {:induction false} CleanFromMembers(acc: seq<string>, s: seq<string>, x: string)
    ensures x in CleanFrom(acc, s) <==> x in acc || (x in s && Qualifies(x))
    decreases |s|
  {
    if s != [] {
      CleanFromMembers(Keep(acc, s[0]), s[1..], x);
      assert x in s <==> x == s[0] || x in s[1..] by {
        assert s == [s[0]] + s[1..];
      }
    }
  }

  lemma CleanFromMembersAll(acc: seq<string>, s: seq<string>)
    ensures forall x :: x in CleanFrom(acc, s) <==> x in acc || (x in s && Qualifies(x))
  {
    forall x ensures x in CleanFrom(acc, s) <==> x in acc || (x in s && Qualifies(x)) {
      CleanFromMembers(acc, s, x);
    }
  }

  /** The loop never appends a URL twice. */
  lemma {:induction false} CleanFromDistinct(acc: seq<string>, s: seq<string>)
    requires Distinct(acc)
    ensures Distinct(CleanFrom(acc, s))
    decreases |s|
  {
    if s != [] {
      CleanFromDistinct(Keep(acc, s[0]), s[1..]);
    }
  }

  /** Feeding the loop an already cleaned list is the same as feeding it the raw one. */
  lemma {:induction false} CleanFromAbsorbs(acc: seq<string>, b: seq<string>)
    ensures CleanFrom(acc, Clean(b)) == CleanFrom(acc, b)
    decreases |b|
  {
    if b != [] {
      var b', x := b[..|b| - 1], b[|b| - 1];
      assert b == b' + [x];
      CleanFromAppend([], b', [x]);
      CleanFromOne(Clean(b'), x);
      CleanFromAppend(acc, b', [x]);
      CleanFromOne(CleanFrom(acc, b'), x);
      CleanFromAbsorbs(acc, b');
      if Qualifies(x) && x !in Clean(b') {
        CleanFromAppend(acc, Clean(b'), [x]);
        CleanFromOne(CleanFrom(acc, Clean(b')), x);
      } else if Qualifies(x) {
        CleanFromMembers([], b', x);
        CleanFromMembers(acc, b', x);
      }
    }
  }

  /** Deduplicating twice is deduplicating once. */
  lemma CleanIdempotent(s: seq<string>)
    ensures Clean(Clean(s)) == Clean(s)
  {
    CleanFromAbsorbs([], s);
  }

  lemma {:induction false} FirstIndexAppend(s: seq<string>, t: seq<string>, x: string)
    requires x in s
    ensures FirstIndex(s + t, x) == FirstIndex(s, x)
  {
    assert (s + t)[0] == s[0];
    if s[0] != x {
      assert s == [s[0]] + s[1..] && (s + t)[1..] == s[1..] + t;
      FirstIndexAppend(s[1..], t, x);
    }
  }

  /** `r` lists members of `s` in the order of their first occurrence in `s`. */
  predicate FirstSeenOrdered(s: seq<string>, r: seq<string>) {
    (forall u :: u in r ==> u in s) &&
    forall i, j :: 0 <= i < j < |r| ==> r[i] in s && r[j] in s && FirstIndex(s, r[i]) < FirstIndex(s, r[j])
  }

  /** A further candidate at the end leaves the order of earlier first occurrences alone. */
  lemma FirstSeenOrderedExtend(s: seq<string>, x: string, r: seq<string>)
    requires FirstSeenOrdered(s, r)
    ensures FirstSeenOrdered(s + [x], r)
  {
    forall u | u in r ensures u in s + [x] && FirstIndex(s + [x], u) == FirstIndex(s, u) {
      FirstIndexAppend(s, [x], u);
    }
    forall i, j | 0 <= i < j < |r| ensures FirstIndex(s + [x], r[i]) < FirstIndex(s + [x], r[j]) {
      assert r[i] in r && r[j] in r;
    }
  }

  /** A candidate never seen before goes after everything already seen. */
  lemma FirstSeenOrderedAppend(s: seq<string>, x: string, r: seq<string>)
    requires FirstSeenOrdered(s, r)
    requires x !in s
    ensures FirstSeenOrdered(s + [x], r + [x])
  {
    FirstSeenOrderedExtend(s, x, r);
    var s', r' := s + [x], r + [x];
    var k := FirstIndex(s', x);
    assert s'[..|s|] == s;
    assert k == |s|;
    forall i, j | 0 <= i < j < |r'| ensures r'[i] in s' && r'[j] in s' && FirstIndex(s', r'[i]) < FirstIndex(s', r'[j]) {
      assert r'[i] == r[i] && r[i] in r;
      if j < |r| {
        assert r'[j] == r[j];
      }
    }
  }

  /** The kept URLs appear in the order of their first occurrence among the candidates. */
  lemma {:induction false} CleanFirstSeenOrder(s: seq<string>)
    ensures FirstSeenOrdered(s, Clean(s))
    decreases |s|
  {
    if s != [] {
      var s', x := s[..|s| - 1], s[|s| - 1];
      assert s == s' + [x];
      CleanFirstSeenOrder(s');
      CleanFromAppend([], s', [x]);
      CleanFromOne(Clean(s'), x);
      if Qualifies(x) && x !in Clean(s') {
        CleanFromMembers([], s', x);
        FirstSeenOrderedAppend(s', x, Clean(s'));
      } else {
        FirstSeenOrderedExtend(s', x, Clean(s'));
      }
    }
  }

  // ---------------------------------------------------------------------------
  // Properties of extraction

  /** Dedup at every level of the recursion equals one dedup of all candidates. */
  lemma {:induction false} ExtractIsGlobalClean(v: Value)
    ensures Extract(v) == Clean(Flatten(v))
    decreases v, 1
  {
    match v
    case List(items) =>
    case Dict(es) =>
      if Subs(es).List? {
        ExtractIsGlobalClean(Subs(es));
        CleanFromAbsorbs([], Flatten(Subs(es)));
      } else {
        ExtractValuesIsGlobalClean(v, |es|, []);
      }
    case _ =>
  }

  /** Two inputs the loop treats alike stay alike when one is extended by a cleaned
      list and the other by the raw one. */
  lemma CleanFromConcat(acc: seq<string>, e: seq<string>, f: seq<string>, ew: seq<string>, fw: seq<string>)
    requires CleanFrom(acc, e) == CleanFrom(acc, f)
    requires ew == Clean(fw)
    ensures CleanFrom(acc, e + ew) == CleanFrom(acc, f + fw)
  {
    CleanFromAppend(acc, e, ew);
    CleanFromAbsorbs(CleanFrom(acc, f), fw);
    CleanFromAppend(acc, f, fw);
  }

  lemma {:induction false} ExtractValuesIsGlobalClean(d: Value, n: nat, acc: seq<string>)
    requires d.Dict? && n <= |d.entries|
    ensures CleanFrom(acc, ExtractValues(d, n)) == CleanFrom(acc, FlattenValues(d, n))
    decreases d, 0, n
  {
    if n > 0 {
      var w := d.entries[n - 1].1;
      var e, f := ExtractValues(d, n - 1), FlattenValues(d, n - 1);
      var ew, fw := Extract(w), Flatten(w);
      ExtractValuesIsGlobalClean(d, n - 1, acc);
      assert CleanFrom(acc, e) == CleanFrom(acc, f);
      ExtractIsGlobalClean(w);
      assert ew == Clean(fw);
      CleanFromConcat(acc, e, f, ew, fw);
      assert ExtractValues(d, n) == e + ew;
      assert FlattenValues(d, n) == f + fw;
    }
  }

  /** Every URL returned is non-empty, starts with "http", and none is returned twice. */
  lemma ExtractWellFormed(v: Value)
    ensures forall u :: u in Extract(v) ==> u != "" && Scheme <= u
    ensures Distinct(Extract(v))
  {
    forall u | u in Extract(v) ensures Qualifies(u) {
      CleanFromMembers([], Gathered(v), u);
    }
    CleanFromDistinct([], Gathered(v));
  }

  /** A URL is returned exactly when some candidate of the document, once stripped, qualifies. */
  lemma ExtractMembers(v: Value, u: string)
    ensures u in Extract(v) <==> u in Flatten(v) && Qualifies(u)
  {
    ExtractIsGlobalClean(v);
    CleanFromMembers([], Flatten(v), u);
  }

  /** The URLs returned come in the order in which the walk first meets them. */
  lemma ExtractFirstSeenOrder(v: Value)
    ensures FirstSeenOrdered(Flatten(v), Extract(v))
  {
    ExtractIsGlobalClean(v);
    CleanFirstSeenOrder(Flatten(v));
  }

  /** A mapping whose "subs" is a list yields exactly what that list yields; its other keys are ignored. */
  lemma ExtractSubsOnly(es: seq<(string, Value)>)
    requires Subs(es).List?
    ensures Extract(Dict(es)) == Extract(Subs(es))
  {
    CleanIdempotent(Gathered(Subs(es)));
  }

  lemma {:induction false} ExtractValuesPrefix(es: seq<(string, Value)>, e: (string, Value), n: nat)
    requires n <= |es|
    ensures ExtractValues(Dict(es + [e]), n) == ExtractValues(Dict(es), n)
  {
    if n > 0 {
      ExtractValuesPrefix(es, e, n - 1);
      assert (es + [e])[n - 1] == es[n - 1];
    }
  }

  /** Without a "subs" list, a mapping yields the dedup of the concatenated results of
      its values in iteration order: one more entry appends its value's URLs to those before. */
  lemma ExtractDictAppend(es: seq<(string, Value)>, e: (string, Value))
    requires !Subs(es + [e]).List?
    ensures Extract(Dict(es + [e])) == Clean(Extract(Dict(es)) + Extract(e.1))
  {
    GetAppend(es, e, "subs");
    assert !Subs(es).List?;
    var d, d' := Dict(es), Dict(es + [e]);
    ExtractValuesPrefix(es, e, |es|);
    assert d'.entries[|es|] == e;
    assert Gathered(d') == ExtractValues(d', |es| + 1) == ExtractValues(d', |es|) + Extract(e.1);
    var prev := ExtractValues(d, |es|);
    assert Extract(d) == Clean(prev);
    CleanFromAppend([], prev, Extract(e.1));
    CleanFromAppend([], Clean(prev), Extract(e.1));
    CleanIdempotent(prev);
  }

  /** Scalars and nested lists inside a list contribute no candidate. */
  lemma ItemScalarOrList(item: Value)
    requires !item.Str? && !item.Dict?
    ensures ItemCandidates(item) == []
  {
  }

  /** A mapping in a list offers the first truthy value among "url", "sub", "link",
      stripped, and nothing when that value is not a string. */
  lemma DictItemFirstTruthy(es: seq<(string, Value)>, k: nat)
    requires k < |CandidateKeys|
    requires Truthy(Get(es, CandidateKeys[k]))
    requires forall j :: 0 <= j < k ==> !Truthy(Get(es, CandidateKeys[j]))
    ensures var w := Get(es, CandidateKeys[k]);
            ItemCandidates(Dict(es)) == if w.Str? then [Strip(w.s)] else []
  {
    if k > 0 { assert !Truthy(Get(es, CandidateKeys[0])); }
    if k > 1 { assert !Truthy(Get(es, CandidateKeys[1])); }
  }

  /** When none of the three keys holds a truthy value, the mapping offers nothing that survives the filter. */
  lemma DictItemNoneTruthy(es: seq<(string, Value)>)
    requires forall j :: 0 <= j < |CandidateKeys| ==> !Truthy(Get(es, CandidateKeys[j]))
    ensures forall u :: u in ItemCandidates(Dict(es)) ==> !Qualifies(u)
  {
    assert !Truthy(Get(es, CandidateKeys[0])) && !Truthy(Get(es, CandidateKeys[1])) && !Truthy(Get(es, CandidateKeys[2]));
  }

  // ---------------------------------------------------------------------------
  // The procedure

  /** `extract_urls(obj)`: gathers the level's candidates into `urls`, then keeps the
      qualifying ones in first-seen order with a `seen` set. */
  method ExtractUrls(obj: Value) returns (deduped: seq<string>)
    ensures deduped == Extract(obj)
    decreases obj
  {
    var urls: seq<string> := [];
    match obj {
      case List(items) =>
        urls := ListUrls(items);
      case Dict(es) =>
        var subs := Get(es, "subs");
        if subs.List? {
          var part := ExtractUrls(subs);
          urls := urls + part;
        } else {
          for i := 0 to |es|
            invariant urls == ExtractValues(obj, i)
          {
            var part := ExtractUrls(es[i].1);
            urls := urls + part;
          }
        }
      case _ =>
    }
    assert urls == Gathered(obj);
    deduped := KeepFirstHttp(urls);
  }

  /** Lines 17-23 of `extract_urls`: the candidates of a list, one per string item and
      per mapping item whose chosen value is a string, each stripped. */
  method ListUrls(items: seq<Value>) returns (urls: seq<string>)
    ensures urls == ListCandidates(items)
  {
    urls := [];
    for i := 0 to |items|
      invariant urls == ListCandidates(items[..i])
    {
      var item := items[i];
      assert items[..i + 1][..i] == items[..i] && items[..i + 1][i] == item;
      assert ListCandidates(items[..i + 1]) == urls + ItemCandidates(item);
      if item.Str? {
        urls := urls + [Strip(item.s)];
      } else if item.Dict? {
        var u := Or(Or(Get(item.entries, "url"), Get(item.entries, "sub")), Get(item.entries, "link"));
        assert u == DictCandidate(item.entries);
        if u.Str? {
          urls := urls + [Strip(u.s)];
        }
      }
    }
    assert items[..|items|] == items;
  }

  /** Lines 33-44 of `extract_urls`: keep each URL that is non-empty and starts with
      "http", the first time it is met. */
  method KeepFirstHttp(urls: seq<string>) returns (deduped: seq<string>)
    ensures deduped == Clean(urls)
  {
    deduped := [];
    var seen: set<string> := {};
    for i := 0 to |urls|
      invariant forall x :: x in seen <==> x in deduped
      invariant CleanFrom(deduped, urls[i..]) == Clean(urls)
    {
      var u := urls[i];
      assert urls[i..][0] == u && urls[i..][1..] == urls[i + 1..];
      assert CleanFrom(deduped, urls[i..]) == CleanFrom(Keep(deduped, u), urls[i + 1..]);
      if u == "" || !(Scheme <= u) {
        assert Keep(deduped, u) == deduped;
        continue;
      }
      if u in seen {
        assert Keep(deduped, u) == deduped;
        continue;
      }
      assert Keep(deduped, u) == deduped + [u];
      seen := seen + {u};
      deduped := deduped + [u];
    }
  }
}
