/** The public site's script (src/app.js): which navigation link marks the
    current page, and the visitor counter — the once-a-day hit decision,
    the count read from the counter's reply, and the day stamp kept in
    the browser's local storage. */
module Site {
  import opened Js
  import opened Wrappers

  // ---------------------------------------------------------------------
  // markActiveLink

  const DefaultPage := "index.html"

  /** `path.split('/').pop() || 'index.html'`: the part after the last
      '/', or the default page when that part is empty. */
  function PageName(path: string): string {
    var parts := Split(path, '/');
    var last := parts[|parts| - 1];
    if last == "" then DefaultPage else last
  }

  /** The page name is the text after the last '/' when there is some;
      a path that ends in '/' names the default page, and a non-empty
      path without '/' is its own page name. */
  lemma PageNameSpec(dir: string, leaf: string)
    requires '/' !in leaf
    ensures PageName(dir + "/" + leaf) == (if leaf == "" then DefaultPage else leaf)
    ensures leaf != "" ==> PageName(leaf) == leaf
  {
    LastPieceAfter(dir, leaf);
    SplitNoSeparator(leaf, '/');
  }

  /** The last piece of `s + "/" + t`, split on '/', is `t` when `t` has
      no '/'. */
  lemma {:induction false} LastPieceAfter(s: string, t: string)
    requires '/' !in t
    ensures var parts := Split(s + "/" + t, '/'); |parts| >= 2 && parts[|parts| - 1] == t
    decreases |s|
  {
    var w := s + "/" + t;
    if s == [] {
      assert w == "/" + t && w[1..] == t;
      SplitNoSeparator(t, '/');
    } else {
      assert w[1..] == s[1..] + "/" + t;
      LastPieceAfter(s[1..], t);
    }
  }

  /** The link after markActiveLink, on a page named `here`. */
  function Marked(link: NavLink, here: string): NavLink {
    link.(ariaCurrent := if PageName(link.href) == here then "page" else "false")
  }

  /** A navigation anchor: its href and its `aria-current` attribute. */
  datatype NavLink = NavLink(href: string, ariaCurrent: string)

  /** markActiveLink(): sets `aria-current` on every navigation link, in
      place, and changes nothing else. */
  method MarkActiveLink(pathname: string, links: array<NavLink>)
    modifies links
    ensures forall i :: 0 <= i < links.Length ==> links[i] == Marked(old(links[i]), PageName(pathname))
  {
    var here := PageName(pathname);
    var k := 0;
    while k < links.Length
      invariant 0 <= k <= links.Length
      invariant forall i :: 0 <= i < k ==> links[i] == Marked(old(links[i]), here)
      invariant forall i :: k <= i < links.Length ==> links[i] == old(links[i])
    {
      MarkLink(links, k, here);
      k := k + 1;
    }
  }

  /** Sets `aria-current` on the link at index `k`, on a page named
      `here`, and leaves the other links alone. */
  method MarkLink(links: array<NavLink>, k: nat, here: string)
    requires k < links.Length
    modifies links
    ensures links[k] == Marked(old(links[k]), here)
    ensures forall i :: 0 <= i < links.Length && i != k ==> links[i] == old(links[i])
  {
    links[k] := Marked(links[k], here);
  }

  /** A link is marked as the current page exactly when it names the same
      page as the location: the directories do not matter, and a link to a
      directory stands for its index page. */
  lemma MarkedSpec(link: NavLink, linkDir: string, hereDir: string, leaf: string)
    requires forall i :: 0 <= i < |leaf| ==> leaf[i] != '/'
    ensures Marked(link.(href := linkDir + "/" + leaf), PageName(hereDir + "/" + leaf)).ariaCurrent == "page"
    ensures Marked(link.(href := linkDir + "/"), PageName(hereDir + "/" + DefaultPage)).ariaCurrent == "page"
    ensures leaf != "" && leaf != DefaultPage ==>
              Marked(link.(href := linkDir + "/"), PageName(hereDir + "/" + leaf)).ariaCurrent == "false"
  {
    PageNameSpec(linkDir, leaf);
    PageNameSpec(hereDir, leaf);
    PageNameSpec(linkDir, "");
    assert linkDir + "/" + "" == linkDir + "/";
    PageNameSpec(hereDir, DefaultPage);
  }

  // ---------------------------------------------------------------------
  // initVisitorCounter: the count shown

  /** `typeof v === 'number'` (NaN is not modelled). */
  function NumberOf(v: Value): Option<int> {
    if v.Num? then Some(v.n) else None
  }

  /** The count in the counter's reply `d`, tried in order `d.count`,
      `d.value`, `d.total`, `d.Item.count`; `None` when none is a number.
      Only an object carries any of these keys. */
  function CountOf(d: Value): Option<int>
    requires !Nullish(d)
  {
    var count, value, total := Get(d, "count"), Get(d, "value"), Get(d, "total");
    if count.Num? then Some(count.n)
    else if value.Num? then Some(value.n)
    else if total.Num? then Some(total.n)
    else if Truthy(Get(d, "Item")) && Get(Get(d, "Item"), "count").Num? then Some(Get(Get(d, "Item"), "count").n)
    else None
  }

  /** The first of the four places holding a number wins; with none, no
      count is read — in particular not from text or from a number
      wrapped in an object. */
  lemma CountOfSpec(d: Value)
    requires !Nullish(d)
    ensures CountOf(d).Some? <==>
              Get(d, "count").Num? || Get(d, "value").Num? || Get(d, "total").Num? ||
              Get(Get(d, "Item"), "count").Num?
    ensures Get(d, "count").Num? ==> CountOf(d) == NumberOf(Get(d, "count"))
    ensures !Get(d, "count").Num? && Get(d, "value").Num? ==> CountOf(d) == NumberOf(Get(d, "value"))
    ensures !Get(d, "count").Num? && !Get(d, "value").Num? && Get(d, "total").Num? ==>
              CountOf(d) == NumberOf(Get(d, "total"))
    ensures !Get(d, "count").Num? && !Get(d, "value").Num? && !Get(d, "total").Num? &&
            Get(Get(d, "Item"), "count").Num? ==>
              CountOf(d) == NumberOf(Get(Get(d, "Item"), "count"))
    ensures !d.Obj? ==> CountOf(d) == None
  {
  }

  /** Of the three reply shapes `{"count":5}`, `{"Item":{"count":{"N":"5"}}}`
      and `"5"`, only the first yields a count. */
  lemma CountShapes()
    ensures CountOf(Obj(map["count" := Num(5)])) == Some(5)
    ensures CountOf(Obj(map["Item" := Obj(map["count" := Obj(map["N" := Str("5")])])])) == None
    ensures CountOf(Str("5")) == None
  {
    var wrapped := Obj(map["count" := Obj(map["N" := Str("5")])]);
    var d := Obj(map["Item" := wrapped]);
    assert Get(d, "count") == Undefined && Get(d, "value") == Undefined && Get(d, "total") == Undefined;
    assert Get(d, "Item") == wrapped;
    assert Get(wrapped, "count") == Obj(map["N" := Str("5")]);
  }

  // ---------------------------------------------------------------------
  // initVisitorCounter: the hit and the day stamp

  /** How the counter request ended: it failed or its body was not JSON,
      or its body parsed to `body` (whatever the status). */
  datatype Reply = Failed | Parsed(body: Value)

  /** What the counter element shows: nothing yet, a count, or '—'. */
  datatype Shown = Blank | Count(n: int) | Dash

  /** The request the counter sends: its method and its `site` query
      parameter. */
  datatype Hit = Hit(httpMethod: string, site: string)

  /** SITE_ID: `(location.hostname || 'local') + location.pathname`. */
  function SiteId(hostname: string, pathname: string): string {
    (if hostname == "" then "local" else hostname) + pathname
  }

  /** The local-storage key of a page's day stamp. */
  function StampKey(site: string): string {
    "vc-stamp-" + site
  }

  /** `localStorage.getItem(stampKey) !== today` */
  predicate ShouldHit(storage: map<string, string>, key: string, today: string) {
    key !in storage || storage[key] != today
  }

  /** Whether a reply reaches the end of the `.then` callback: the body
      parsed, and reading `d.count` on it did not throw. */
  predicate Completes(reply: Reply) {
    reply.Parsed? && !Nullish(reply.body)
  }

  /** What the element shows after the reply. */
  function ShownAfter(reply: Reply): Shown {
    if Completes(reply) && CountOf(reply.body).Some? then Count(CountOf(reply.body).value) else Dash
  }

  /** The local storage after the reply: today's stamp is written when
      the page was hit and the callback ran to its end. */
  function StorageAfter(storage: map<string, string>, key: string, today: string, reply: Reply): map<string, string> {
    if ShouldHit(storage, key, today) && Completes(reply) then storage[key := today] else storage
  }

  /** Once a hit has been answered, the same page sends no second hit
      that day; a failed hit is repeated on the next visit; another day
      hits again; other pages' stamps are never touched. */
  lemma OncePerDay(storage: map<string, string>, key: string, today: string, reply: Reply, other: string)
    ensures Completes(reply) ==> !ShouldHit(StorageAfter(storage, key, today, reply), key, today)
    ensures !Completes(reply) ==> StorageAfter(storage, key, today, reply) == storage
    ensures Completes(reply) && other != today ==> ShouldHit(StorageAfter(storage, key, today, reply), key, other)
    ensures forall k :: k != key ==>
              (k in StorageAfter(storage, key, today, reply) <==> k in storage) &&
              (k in storage ==> StorageAfter(storage, key, today, reply)[k] == storage[k])
  {
  }

  /** A reply that parses but holds no count still stamps the day: the
      element shows '—' and the page is not hit again until tomorrow. */
  lemma StampWithoutCount(storage: map<string, string>, key: string, today: string, reply: Reply)
    requires ShouldHit(storage, key, today)
    requires Completes(reply) && CountOf(reply.body).None?
    ensures ShownAfter(reply) == Dash
    ensures StorageAfter(storage, key, today, reply) == storage[key := today]
    ensures !ShouldHit(StorageAfter(storage, key, today, reply), key, today)
  {
  }

  /** The counter's text reply '5' is such a reply. */
  lemma TextReplyStamps(storage: map<string, string>, key: string, today: string)
    requires ShouldHit(storage, key, today)
    ensures ShownAfter(Parsed(Str("5"))) == Dash
    ensures StorageAfter(storage, key, today, Parsed(Str("5"))) == storage[key := today]
  {
    CountShapes();
    StampWithoutCount(storage, key, today, Parsed(Str("5")));
  }

  /** The browser side of the visitor counter: local storage and the
      counter element. */
  class Counter {
    var storage: map<string, string>
    var shown: Shown

    constructor(storage: map<string, string>)
      ensures this.storage == storage && shown == Blank
    {
      this.storage := storage;
      shown := Blank;
    }

    /** initVisitorCounter() on a visit to `pathname` on `hostname` at the
        time `nowIso` (an ISO timestamp, whose first ten characters are the
        day), with `reply` the outcome of the request it sends. A page
        without the counter element (`hasCounter` false) sends nothing and
        changes nothing. Otherwise it hits (POST) when the page has no
        stamp for today and only reads (GET) otherwise, then shows the
        count or '—' and stamps the day. */
    method Visit(hasCounter: bool, hostname: string, pathname: string, nowIso: string, reply: Reply)
      returns (hit: Option<Hit>)
      modifies this
      ensures !hasCounter ==> hit == None && storage == old(storage) && shown == old(shown)
      ensures hasCounter ==>
              var key, today := StampKey(SiteId(hostname, pathname)), SliceTo(nowIso, 10);
              hit == Some(Hit(if ShouldHit(old(storage), key, today) then "POST" else "GET", SiteId(hostname, pathname))) &&
              storage == StorageAfter(old(storage), key, today, reply) &&
              shown == ShownAfter(reply)
    {
      if !hasCounter {
        return None;
      }
      var site := SiteId(hostname, pathname);
      var key := StampKey(site);
      var today := SliceTo(nowIso, 10);
      var shouldHit := !(key in storage && storage[key] == today);
      hit := Some(Hit(if shouldHit then "POST" else "GET", site));
      match reply
      case Failed =>
        shown := Dash;
      case Parsed(d) =>
        if Nullish(d) {
          shown := Dash;
        } else {
          var value := CountOf(d);
          shown := if value.Some? then Count(value.value) else Dash;
          if shouldHit {
            storage := storage[key := today];
          }
        }
    }
  }
}
