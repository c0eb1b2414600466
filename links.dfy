/**
 * `extract_links` (web_crawlar/script.py:19-25): every absolute `href` value
 * found by `re.findall`, resolved with `urljoin`, made unique through a
 * `set`, listed in the set's iteration order, and cut to a slice of at most
 * `limit` links starting in the middle.
 *
 * `urljoin` is the parameter `join`.  Python does not fix the iteration order
 * of a set, so the listing is the parameter `order`, which may be any
 * duplicate-free sequence of exactly the joined links; `ListOfSet` produces
 * such a sequence by choosing elements arbitrarily.
 */
module Links {
  import opened Wrappers
  import opened Text

  predicate IsQuote(c: char) { c == '"' || c == '\'' }

  /** What group 1 of `href=["\'](https?://[^"\']+)` can capture. */
  predicate IsAbsoluteLink(l: string) {
    && ((StartsWith(l, "http://") && |l| > 7) || (StartsWith(l, "https://") && |l| > 8))
    && forall i :: 0 <= i < |l| ==> !IsQuote(l[i])
  }

  function NotQuote(c: char): bool { !IsQuote(c) }

  /**
   * The match of `href=["\'](https?://[^"\']+)` at the start of `s`: its
   * length and its captured group.  `s?` is greedy, so `https://` is tried
   * before `http://`; `[^"\']+` takes the longest run that has no quote.
   */
  function HrefAt(s: string): (m: Option<(nat, string)>)
    ensures m.Some? ==> 0 < m.value.0 <= |s| && IsAbsoluteLink(m.value.1)
    ensures m.Some? ==> m.value.0 == |s| || IsQuote(s[m.value.0])
  {
    if !(StartsWith(s, "href=") && |s| > 5 && IsQuote(s[5])) then None
    else
      var scheme := if StartsWith(s[6..], "https://") then 8
                    else if StartsWith(s[6..], "http://") then 7
                    else 0;
      if scheme == 0 then None
      else
        var m := RunEnd(s, 6 + scheme, NotQuote);
        if m == 6 + scheme then None
        else
          CapturedLink(s, if scheme == 8 then "https://" else "http://", m);
          Some((m, s[6..m]))
  }

  /** The group captured after `href=` and a quote: the scheme, then a non-empty run without quotes. */
  lemma CapturedLink(s: string, scheme: string, m: nat)
    requires scheme == "https://" || scheme == "http://"
    requires 6 + |scheme| < m <= |s| && StartsWith(s[6..], scheme)
    requires forall j :: 6 + |scheme| <= j < m ==> NotQuote(s[j])
    ensures IsAbsoluteLink(s[6..m])
  {
    var l := s[6..m];
    assert l[..|scheme|] == s[6..][..|scheme|];
    forall i | 0 <= i < |l| ensures !IsQuote(l[i]) {
      if i < |scheme| {
        assert l[i] == scheme[i];
      } else {
        assert l[i] == s[6 + i];
      }
    }
  }

  /** `re.findall(r'href=["\'](https?://[^"\']+)', html)` */
  function FindHrefs(html: string): (links: seq<string>)
    ensures forall i :: 0 <= i < |links| ==> IsAbsoluteLink(links[i])
    decreases |html|
  {
    if html == [] then []
    else match HrefAt(html)
      case Some((n, link)) => [link] + FindHrefs(html[n..])
      case None => FindHrefs(html[1..])
  }

  /**
   * An `href` attribute quoted with `q` around an absolute link is matched,
   * and the captured group is exactly that link.
   */
  lemma HrefMatched(l: string, q: char, rest: string)
    requires IsAbsoluteLink(l) && IsQuote(q)
    ensures HrefAt("href=" + [q] + l + [q] + rest) == Some((6 + |l|, l))
  {
    var s := "href=" + [q] + l + [q] + rest;
    assert s == "href=" + [q] + (l + ([q] + rest));
    assert s[..5] == "href=" && s[5] == q;
    assert s[6..][..|l|] == l && s[6 + |l|] == q;
    var scheme := if StartsWith(l, "https://") then 8 else 7;
    assert s[6..][..scheme] == l[..scheme];
    assert StartsWith(s[6..], "https://") <==> scheme == 8 by {
      if scheme == 7 { assert s[6..][..8] == l[..8]; }
    }
    assert scheme == 7 ==> StartsWith(l, "http://") && StartsWith(s[6..], "http://");
    assert |l| > scheme by {
      if scheme == 8 { assert l[..7][4] == 's'; }
    }
    assert forall j :: 6 + scheme <= j < 6 + |l| ==> s[j] == l[j - 6];
    RunEndIs(s, 6 + scheme, NotQuote, 6 + |l|);
    assert s[6..6 + |l|] == l;
  }

  /** `re.findall` reports such a link and resumes at its closing quote. */
  lemma HrefListed(l: string, q: char, rest: string)
    requires IsAbsoluteLink(l) && IsQuote(q)
    ensures FindHrefs("href=" + [q] + l + [q] + rest) == [l] + FindHrefs([q] + rest)
  {
    var s := "href=" + [q] + l + [q] + rest;
    HrefMatched(l, q, rest);
    assert s == ("href=" + [q] + l) + ([q] + rest);
    assert s[6 + |l|..] == [q] + rest;
  }

  /** `{urljoin(base_url, link) for link in links}` */
  function JoinedSet(html: string, baseUrl: string, join: (string, string) -> string): set<string>
  {
    set l | l in FindHrefs(html) :: join(baseUrl, l)
  }

  predicate NoDuplicates<T(==)>(u: seq<T>) {
    forall i, j :: 0 <= i < j < |u| ==> u[i] != u[j]
  }

  /** `u` lists every element of `s` exactly once: a possible value of `list(s)`. */
  predicate IsEnumeration<T(==)>(u: seq<T>, s: set<T>) {
    NoDuplicates(u) && (set x | x in u) == s
  }

  /** `list(s)`: the elements of `s`, once each, in an order the model leaves open. */
  method ListOfSet<T(==)>(s: set<T>) returns (u: seq<T>)
    ensures IsEnumeration(u, s)
  {
    u := [];
    var rest := s;
    while rest != {}
      invariant NoDuplicates(u)
      invariant (set x | x in u) + rest == s
      invariant forall x :: x in u ==> x !in rest
      decreases |rest|
    {
      var x :| x in rest;
      u := u + [x];
      rest := rest - {x};
    }
  }

  /** A duplicate-free sequence has as many elements as its set. */
  lemma {:induction false} DistinctCardinality<T>(u: seq<T>)
    requires NoDuplicates(u)
    ensures |set x | x in u| == |u|
  {
    if u != [] {
      var v := u[..|u| - 1];
      assert NoDuplicates(v);
      DistinctCardinality(v);
      assert (set x | x in u) == (set x | x in v) + {u[|u| - 1]};
      assert u[|u| - 1] !in (set x | x in v);
    }
  }

  function Min(a: int, b: int): int { if a <= b then a else b }

  /**
   * `extract_links(html, base_url, limit)` when `list(set(...))` yields
   * `order`: with `n` distinct joined links it returns `min(limit, n - n / 2)`
   * of them, all different, read from `order` starting at index `n / 2`.
   */
  function ExtractLinks(html: string, baseUrl: string, limit: nat, join: (string, string) -> string, order: seq<string>): (links: seq<string>)
    requires IsEnumeration(order, JoinedSet(html, baseUrl, join))
    ensures var n := |JoinedSet(html, baseUrl, join)|;
            |links| == Min(limit, n - n / 2) && |order| == n
    ensures forall k :: 0 <= k < |links| ==> links[k] == order[|order| / 2 + k]
    ensures NoDuplicates(links)
    ensures forall x :: x in links ==> x in JoinedSet(html, baseUrl, join)
    ensures forall x :: x in links ==> exists l :: l in FindHrefs(html) && IsAbsoluteLink(l) && x == join(baseUrl, l)
  {
    DistinctCardinality(order);
    var offset := |order| / 2;
    order[offset..Min(|order|, offset + limit)]
  }

  /** Three distinct links and `limit` 2: the slice `[1:3]` is the second and third of the listing. */
  lemma MiddleOfThree(html: string, baseUrl: string, join: (string, string) -> string, order: seq<string>)
    requires IsEnumeration(order, JoinedSet(html, baseUrl, join))
    requires |JoinedSet(html, baseUrl, join)| == 3
    ensures |order| == 3 && ExtractLinks(html, baseUrl, 2, join, order) == [order[1], order[2]]
  {
    var links := ExtractLinks(html, baseUrl, 2, join, order);
    assert |links| == 2 && links[0] == order[1] && links[1] == order[2];
  }

  /** `extract_links(soup, base_url, limit)`: the set of joined links is listed in some order, then sliced. */
  method ExtractPageLinks(html: string, baseUrl: string, limit: nat, join: (string, string) -> string) returns (links: seq<string>)
    ensures |links| <= limit && NoDuplicates(links)
    ensures exists order :: IsEnumeration(order, JoinedSet(html, baseUrl, join)) && links == ExtractLinks(html, baseUrl, limit, join, order)
  {
    var order := ListOfSet(JoinedSet(html, baseUrl, join));
    links := ExtractLinks(html, baseUrl, limit, join, order);
  }
}
