/**
 A browse request from the operator's browser: served from the cache while an
 entry is fresh, otherwise asked of the server with the entry's etag, and what
 either source of the page promises about its age.
 */
module Browse {
  import opened Bytes
  import opened Wrappers
  import opened ResponseCodec
  import opened Cache
  import RequestCodec
  import Utf8

  type Html = seq<byte>

  /** The foreign parts: brotli, the page hash, and the rewriting of a page for display. */
  datatype Foreign = Foreign(
    compress: Html -> seq<byte>, decompress: seq<byte> -> Option<Html>, hash: Html -> Etag,
    render: (Html, Url) -> Option<seq<byte>>)

  /** Compression loses nothing, and no two of the pages in play share an etag. */
  ghost predicate Lawful(f: Foreign, pages: iset<Html>) {
    && (forall h :: f.decompress(f.compress(h)) == Some(h))
    && (forall h1, h2 :: h1 in pages && h2 in pages && f.hash(h1) == f.hash(h2) ==> h1 == h2)
    && (forall h :: h in pages ==> Utf8.Valid(h))
  }

  // ----- The server's answer -----

  /** What handling a GET came to on the server: the page it fetched, or a message. */
  datatype Outcome = Fetched(html: Html, maxAge: int) | Refused(blocked: bool, message: Html)

  /** The answer to a request whose condition, as the server read it, is `condition`. */
  function Respond(f: Foreign, outcome: Outcome, condition: Option<Etag>): Response {
    match outcome
    case Refused(blocked, message) =>
      Response(if blocked then StatusBlocked else StatusErr, [45], -1, f.compress(message))
    case Fetched(html, maxAge) =>
      var etag := f.hash(html);
      if condition == Some(etag) then Response(StatusNotModified, etag, maxAge, [])
      else Response(StatusOk, etag, maxAge, f.compress(html))
  }

  /** A reply is the server's answer to some reading of the request. */
  ghost predicate Answers(f: Foreign, pages: iset<Html>, reply: seq<byte>, outcome: Outcome, condition: Option<Etag>) {
    Carries(reply, Respond(f, outcome, condition)) && (outcome.Fetched? ==> outcome.html in pages)
  }

  /** What the client's decoders make of the server's answer. */
  lemma ReplyRead(f: Foreign, pages: iset<Html>, reply: seq<byte>, outcome: Outcome, condition: Option<Etag>)
    requires Answers(f, pages, reply, outcome, condition)
    ensures var h := DecodeHeader(reply);
            && h.Header? && h.end + h.payloadLen <= |reply|
            && (h.status.StatusErr? <==> outcome.Refused? && !outcome.blocked)
            && (h.status.StatusBlocked? <==> outcome.Refused? && outcome.blocked)
            && (h.status.StatusNotModified? <==> outcome.Fetched? && condition == Some(f.hash(outcome.html)))
            && (outcome.Fetched? ==>
                  h.etag == f.hash(outcome.html) && h.maxAge == outcome.maxAge && outcome.html in pages)
            && (h.status.StatusOk? ==>
                  DecodePayload(reply[h.end..h.end + h.payloadLen]) == Some(f.compress(outcome.html)))
  {
    hide DecodeHeader, DecodePayload, ResponseCodec.Body;
  }

  /** The condition a request carries. */
  function Condition(request: RequestCodec.Request): Option<Etag> {
    if request.Get? then request.ifNoneMatch else None
  }

  // ----- What the browser gets -----

  datatype Page =
    | Shown(body: seq<byte>, etag: Etag, ttl: nat)
    | BrowserCopyFresh(etag: Etag)
    | ErrorPage
    | ToConnectPage

  function Show(f: Foreign, url: Url, html: Html, etag: Etag, ttl: nat): Page {
    var body := f.render(html, url);
    if body.Some? then Shown(body.value, etag, ttl) else ErrorPage
  }

  function EffectiveTtl(serverMaxAge: int, maxTtl: nat): nat {
    if serverMaxAge <= 0 then 0 else if serverMaxAge < maxTtl then serverMaxAge else maxTtl
  }

  /** The whole seconds of freshness a hit has left. */
  function Remaining(hit: Hit, now: nat): nat {
    var fetched := hit.fetchedAt * TICKS;
    if now < fetched || now - fetched > hit.maxAge * TICKS then 0 else (hit.maxAge * TICKS - (now - fetched)) / TICKS
  }

  function ServeFromHit(f: Foreign, hit: Hit, url: Url, now: nat): Page {
    var html := f.decompress(hit.body);
    if html.None? || !Utf8.Valid(html.value) then ErrorPage
    else Show(f, url, html.value, hit.etag, Remaining(hit, now))
  }

  /**
   The page shows `html` and nothing else; it is an error only when `html`
   cannot be rewritten for display, and it has no body only for a browser that
   said it keeps exactly this page (`kept`).
   */
  ghost predicate Presents(f: Foreign, url: Url, html: Html, kept: Option<Etag>, page: Page) {
    || (page == ErrorPage && f.render(html, url).None?)
    || (page == BrowserCopyFresh(f.hash(html)) && kept == Some(f.hash(html)))
    || (page.Shown? && page.etag == f.hash(html) && f.render(html, url) == Some(page.body))
  }

  // ----- The record of what the server sent -----

  /** A page the server sent or confirmed: when it arrived and under which age it was sent. */
  datatype Sent = Sent(html: Html, at: nat, maxAge: int)

  /** Per URL, the last page sent or confirmed, and the last one among them that was storable. */
  datatype Ledger = Ledger(latest: map<Url, Sent>, stored: map<Url, Sent>)

  function StoredAge(s: Sent, maxTtl: nat): int {
    if s.maxAge < maxTtl then s.maxAge else maxTtl
  }

  /**
   An entry is the page last stored for its URL, timed with the second of that
   page's arrival, and the last one sent unless a no-store page came since.
   */
  ghost predicate EntryHeld(f: Foreign, pages: iset<Html>, maxTtl: nat, clock: nat, ledger: Ledger, url: Url,
                            e: Entry) {
    && url in ledger.stored && url in ledger.latest && ledger.latest[url].html in pages
    && var s := ledger.stored[url];
       && s.html in pages && e.body == f.compress(s.html) && e.etag == f.hash(s.html)
       && e.fetchedAt * TICKS <= s.at < (e.fetchedAt + 1) * TICKS && s.at <= clock
       && 0 <= s.maxAge && e.maxAge == StoredAge(s, maxTtl)
       && (ledger.latest[url].maxAge >= 0 ==> ledger.latest[url] == s)
  }

  ghost predicate AllHeld(f: Foreign, pages: iset<Html>, maxTtl: nat, clock: nat, ledger: Ledger, entries: Table) {
    forall url :: url in entries ==> EntryHeld(f, pages, maxTtl, clock, ledger, url, entries[url])
  }

  /** The ledger after a page arrived, and after a confirmation did. */
  function Arrived(ledger: Ledger, url: Url, s: Sent): Ledger {
    Ledger(ledger.latest[url := s], if s.maxAge >= 0 then ledger.stored[url := s] else ledger.stored)
  }

  function Confirmed(ledger: Ledger, url: Url, at: nat): Ledger
    requires url in ledger.stored
  {
    var s := ledger.stored[url].(at := at);
    Ledger(ledger.latest[url := s], ledger.stored[url := s])
  }

  /** What a reply does to the record: nothing, a page arrived, or the entry was confirmed. */
  datatype Effect = Nothing | PageArrived(page: Sent) | EntryConfirmed(at: nat)

  /**
   The effect of a reply that arrived at `at`: none if it failed or carries no
   page; a confirmation counts only if it names the etag that was sent.
   */
  function EffectOf(f: Foreign, cached: bool, request: RequestCodec.Request, ok: bool, at: nat,
                    outcome: Outcome, condition: Option<Etag>): Effect {
    if !ok || outcome.Refused? then Nothing
    else if condition != Some(f.hash(outcome.html)) then PageArrived(Sent(outcome.html, at, outcome.maxAge))
    else if cached && Condition(request) == condition then EntryConfirmed(at)
    else Nothing
  }

  /** The ledger moves by exactly this effect; what is confirmed is the page already stored. */
  ghost predicate LedgerMoves(before: Ledger, after: Ledger, url: Url, e: Effect, html: Html) {
    match e
    case Nothing => after == before
    case PageArrived(s) => after == Arrived(before, url, s)
    case EntryConfirmed(at) =>
      url in before.stored && before.stored[url].html == html && after == Confirmed(before, url, at)
  }

  /** And the table by the write that goes with it. */
  ghost predicate TableMoves(f: Foreign, before: Table, after: Table, url: Url, e: Effect, maxTtl: nat, cap: int) {
    match e
    case Nothing => after == before
    case PageArrived(s) =>
      if s.maxAge < 0 then after == before
      else
        var entry := NewEntry(f.hash(s.html), f.compress(s.html), s.maxAge, maxTtl, s.at);
        MinimalLru(before[url := entry], after, url, cap)
    case EntryConfirmed(at) => after == Refreshed(before, url, at)
  }

  lemma StoredHeld(f: Foreign, pages: iset<Html>, maxTtl: nat, clock: nat, ledger: Ledger, before: Table, after: Table,
                   url: Url, s: Sent)
    requires AllHeld(f, pages, maxTtl, clock, ledger, before) && s.html in pages && s.at <= clock
    requires s.maxAge < 0 ==> after == before
    requires s.maxAge >= 0 ==>
               Survivors(before[url := NewEntry(f.hash(s.html), f.compress(s.html), s.maxAge, maxTtl, s.at)], after)
    ensures AllHeld(f, pages, maxTtl, clock, Arrived(ledger, url, s), after)
  {
    SecondsBelow(s.at);
  }

  lemma ConfirmedHeld(f: Foreign, pages: iset<Html>, maxTtl: nat, clock: nat, ledger: Ledger, entries: Table,
                      url: Url, at: nat)
    requires AllHeld(f, pages, maxTtl, clock, ledger, entries) && url in entries && at <= clock
    ensures AllHeld(f, pages, maxTtl, clock, Confirmed(ledger, url, at), Refreshed(entries, url, at))
  {
    SecondsBelow(at);
  }

  lemma UsedHeld(f: Foreign, pages: iset<Html>, maxTtl: nat, clock: nat, ledger: Ledger, entries: Table, url: Url,
                 now: nat)
    requires AllHeld(f, pages, maxTtl, clock, ledger, entries)
    ensures AllHeld(f, pages, maxTtl, clock, ledger, Used(entries, url, now))
  {
  }

  lemma LaterHeld(f: Foreign, pages: iset<Html>, maxTtl: nat, clock: nat, later: nat, ledger: Ledger, entries: Table)
    requires AllHeld(f, pages, maxTtl, clock, ledger, entries) && clock <= later
    ensures AllHeld(f, pages, maxTtl, later, ledger, entries)
  {
  }

  lemma EntryAt(f: Foreign, pages: iset<Html>, maxTtl: nat, clock: nat, ledger: Ledger, entries: Table, url: Url)
    requires AllHeld(f, pages, maxTtl, clock, ledger, entries) && url in entries
    ensures EntryHeld(f, pages, maxTtl, clock, ledger, url, entries[url])
  {
  }

  lemma SecondsBelow(at: nat)
    ensures Seconds(at) * TICKS <= at < (Seconds(at) + 1) * TICKS
  {
  }

  /** Confirmed less than the smaller of the age it was stored with and the operator's limit ago. */
  predicate Recent(s: Sent, maxTtl: nat, now: nat) {
    s.at <= now && now - s.at < StoredAge(s, maxTtl) * TICKS
  }

  /**
   Fresh, by the record alone: counted from the second of its arrival, less time
   than its age and the operator's limit has passed.
   */
  predicate StillFresh(s: Sent, maxTtl: nat, now: nat) {
    now - s.at / 1_000_000_000 * 1_000_000_000 < (if s.maxAge < maxTtl then s.maxAge else maxTtl) * 1_000_000_000
  }

  /** The whole seconds of that time that are left. */
  ghost predicate SecondsLeft(ttl: nat, s: Sent, maxTtl: nat, now: nat) {
    var age := if s.maxAge < maxTtl then s.maxAge else maxTtl;
    var left := age * 1_000_000_000 - (now - s.at / 1_000_000_000 * 1_000_000_000);
    if left < 0 then ttl == 0 else ttl * 1_000_000_000 <= left < (ttl + 1) * 1_000_000_000
  }

  /** The browser may keep the page for exactly the seconds left, which end within the same time. */
  ghost predicate KeptWithin(page: Page, s: Sent, maxTtl: nat, now: nat) {
    && (page.Shown? ==> SecondsLeft(page.ttl, s, maxTtl, now))
    && (page.Shown? && page.ttl > 0 ==> now - s.at + page.ttl * TICKS <= StoredAge(s, maxTtl) * TICKS)
  }

  /** The entry is fresh exactly if its record is. */
  lemma FreshExactly(f: Foreign, pages: iset<Html>, maxTtl: nat, clock: nat, ledger: Ledger, url: Url, e: Entry,
                     now: nat)
    requires EntryHeld(f, pages, maxTtl, clock, ledger, url, e) && clock <= now
    ensures IsFresh(Hit(e.etag, e.body, e.fetchedAt, e.maxAge), now) <==> StillFresh(ledger.stored[url], maxTtl, now)
  {
    SecondOf(ledger.stored[url].at, e.fetchedAt);
  }

  lemma SecondOf(at: nat, second: nat)
    requires second * TICKS <= at < (second + 1) * TICKS
    ensures at / 1_000_000_000 == second
  {
  }

  lemma HitKeptWithin(f: Foreign, pages: iset<Html>, maxTtl: nat, clock: nat, ledger: Ledger, url: Url, e: Entry,
                      now: nat)
    requires EntryHeld(f, pages, maxTtl, clock, ledger, url, e) && clock <= now
    ensures var page := ServeFromHit(f, Hit(e.etag, e.body, e.fetchedAt, e.maxAge), url, now);
            && KeptWithin(page, ledger.stored[url], maxTtl, now)
            && (page.Shown? && page.ttl > 0 ==> page.ttl <= StoredAge(ledger.stored[url], maxTtl))
  {
    hide Remaining, Utf8.Valid;
    var hit := Hit(e.etag, e.body, e.fetchedAt, e.maxAge);
    RemainingWithinAge(hit, now);
    RemainingExactly(hit, ledger.stored[url], maxTtl, now);
  }

  lemma RemainingExactly(hit: Hit, s: Sent, maxTtl: nat, now: nat)
    requires hit.fetchedAt * TICKS <= s.at < (hit.fetchedAt + 1) * TICKS && s.at <= now
    requires 0 <= s.maxAge && hit.maxAge == StoredAge(s, maxTtl)
    ensures SecondsLeft(Remaining(hit, now), s, maxTtl, now)
  {
    SecondOf(s.at, hit.fetchedAt);
    var left := hit.maxAge * TICKS - (now - hit.fetchedAt * TICKS);
    if left >= 0 {
      SecondsBelow(left);
    }
  }

  lemma FreshIsRecent(f: Foreign, pages: iset<Html>, maxTtl: nat, clock: nat, ledger: Ledger, url: Url, e: Entry,
                      now: nat)
    requires EntryHeld(f, pages, maxTtl, clock, ledger, url, e) && clock <= now
    requires IsFresh(Hit(e.etag, e.body, e.fetchedAt, e.maxAge), now)
    ensures Recent(ledger.stored[url], maxTtl, now)
  {
  }

  /** Serving an entry's hit shows the page it was stored from. */
  lemma HitPresents(f: Foreign, pages: iset<Html>, maxTtl: nat, clock: nat, ledger: Ledger, url: Url, e: Entry,
                    now: nat)
    requires Lawful(f, pages) && EntryHeld(f, pages, maxTtl, clock, ledger, url, e)
    ensures var page := ServeFromHit(f, Hit(e.etag, e.body, e.fetchedAt, e.maxAge), url, now);
            Presents(f, url, ledger.stored[url].html, None, page)
  {
    hide Remaining;
  }

  /** The freshness handed on to the browser never outlasts the hit's own. */
  lemma RemainingWithinAge(hit: Hit, now: nat)
    requires hit.fetchedAt * TICKS <= now
    ensures Remaining(hit, now) > 0 ==>
              now - hit.fetchedAt * TICKS + Remaining(hit, now) * TICKS <= hit.maxAge * TICKS
  {
    var left := hit.maxAge * TICKS - (now - hit.fetchedAt * TICKS);
    if left >= 0 {
      SecondsBelow(left);
    }
  }

  // ----- The proxy -----

  /** The outside world's part in a request over the link: the reply, when it is in, and when its page is built. */
  datatype Trip = Trip(reply: Result<seq<byte>, ()>, arrived: nat, served: nat)

  class Proxy {
    const foreign: Foreign
    const cache: Cache?
    const maxTtl: nat

    /** The pages the server ever has, the last time seen, and what the server sent. */
    ghost const pages: iset<Html>
    ghost var clock: nat
    ghost var ledger: Ledger

    constructor (foreign: Foreign, cache: Cache?, maxTtl: nat, ghost pages: iset<Html>)
      requires Lawful(foreign, pages)
      requires cache != null ==> cache.Valid() && cache.entries == map[] && cache.maxTtl == maxTtl
      ensures Valid() && this.cache == cache && this.pages == pages && this.foreign == foreign
      ensures this.maxTtl == maxTtl && clock == 0 && ledger == Ledger(map[], map[])
    {
      this.foreign, this.cache, this.maxTtl, this.pages := foreign, cache, maxTtl, pages;
      clock, ledger := 0, Ledger(map[], map[]);
    }

    ghost predicate Valid()
      reads this, cache
    {
      && Lawful(foreign, pages)
      && (cache != null ==>
            && cache.Valid() && cache.maxTtl == maxTtl
            && AllHeld(foreign, pages, maxTtl, clock, ledger, cache.entries))
    }

    /** The condition sent is the etag of the entry in the cache: no other browse came between. */
    ghost predicate ConditionHeld(url: Url, condition: Option<Etag>)
      reads this, cache
    {
      condition.Some? ==> cache != null && url in cache.entries && cache.entries[url].etag == condition.value
    }

    /** The server confirmed the entry whose etag was sent: it counts as fetched now and is served. */
    method Revalidate(url: Url, etag: Etag, trip: Trip, ghost html: Html) returns (page: Page)
      requires Valid() && trip.arrived <= clock <= trip.served
      requires cache != null && url in cache.entries && cache.entries[url].etag == etag
      requires html in pages && etag == foreign.hash(html)
      modifies this, cache
      ensures Valid() && clock == old(clock)
      ensures url in old(ledger).stored && ledger == Confirmed(old(ledger), url, trip.arrived)
      ensures old(ledger).stored[url].html == html && Presents(foreign, url, html, None, page)
      ensures cache.entries == Refreshed(old(cache.entries), url, trip.arrived)
      ensures page.Shown? && page.ttl > 0 ==> page.ttl <= StoredAge(ledger.stored[url], maxTtl)
      ensures page.Shown? ==> SecondsLeft(page.ttl, ledger.stored[url], maxTtl, trip.served)
    {
      ghost var before := cache.entries;
      EntryAt(foreign, pages, maxTtl, clock, ledger, before, url);
      ConfirmedHeld(foreign, pages, maxTtl, clock, ledger, before, url, trip.arrived);
      SamePage(foreign, pages, html, ledger.stored[url].html);
      hide AllHeld, Lawful, ServeFromHit, Presents;
      cache.TouchFresh(url, trip.arrived);
      ledger := Confirmed(ledger, url, trip.arrived);
      var hit := cache.Lookup(url);
      EntryAt(foreign, pages, maxTtl, clock, ledger, cache.entries, url);
      HitPresents(foreign, pages, maxTtl, clock, ledger, url, cache.entries[url], trip.served);
      HitKeptWithin(foreign, pages, maxTtl, clock, ledger, url, cache.entries[url], trip.served);
      page := if hit.Some? then ServeFromHit(foreign, hit.value, url, trip.served) else ErrorPage;
    }

    /** A page that arrived is written to the cache unless its age is negative, which leaves an older entry there. */
    method Store(url: Url, etag: Etag, body: seq<byte>, maxAge: int, arrived: nat, ghost html: Html)
      requires Valid() && arrived <= clock
      requires html in pages && body == foreign.compress(html) && etag == foreign.hash(html)
      modifies this, cache
      ensures Valid() && clock == old(clock)
      ensures ledger == Arrived(old(ledger), url, Sent(html, arrived, maxAge))
      ensures cache != null && maxAge < 0 ==> cache.entries == old(cache.entries)
      ensures cache != null && maxAge >= 0 ==>
                MinimalLru(old(cache.entries)[url := NewEntry(etag, body, maxAge, maxTtl, arrived)],
                           cache.entries, url, SignedCap(cache.capBytes))
    {
      hide AllHeld, Lawful, NewEntry;
      ghost var was := ledger;
      ledger := Arrived(ledger, url, Sent(html, arrived, maxAge));
      if cache != null {
        ghost var before := cache.entries;
        cache.Insert(url, etag, body, maxAge, arrived);
        StoredHeld(foreign, pages, maxTtl, clock, was, before, cache.entries, url, Sent(html, arrived, maxAge));
      }
    }

    /** Time passes. */
    ghost method Tick(now: nat)
      requires Valid() && clock <= now
      modifies this`clock
      ensures Valid() && clock == now
    {
      if cache != null {
        LaterHeld(foreign, pages, maxTtl, clock, now, ledger, cache.entries);
      }
      hide AllHeld, Lawful;
      clock := now;
    }

    /** Ledger and table moved from what they were by exactly this effect. */
    ghost predicate Moves(before: Ledger, table: Table, url: Url, e: Effect, outcome: Outcome)
      reads this, cache
    {
      && LedgerMoves(before, ledger, url, e, if outcome.Fetched? then outcome.html else [])
      && (cache != null && cache.capBytes < U64_LIMIT ==>
            TableMoves(foreign, table, cache.entries, url, e, maxTtl, SignedCap(cache.capBytes)))
    }

    /** The browser may keep an arrived page for its age within the limit, and a confirmed one for the seconds left. */
    ghost predicate TtlRight(ttl: nat, url: Url, outcome: Outcome, condition: Option<Etag>, now: nat)
      reads this
    {
      && outcome.Fetched?
      && if condition == Some(foreign.hash(outcome.html)) then
           url in ledger.stored && SecondsLeft(ttl, ledger.stored[url], maxTtl, now)
         else ttl == if outcome.maxAge <= 0 then 0 else if outcome.maxAge < maxTtl then outcome.maxAge else maxTtl
    }

    method DispatchAx25(url: Url, request: RequestCodec.Request, writes: bool, trip: Trip,
                        ghost outcome: Outcome, ghost condition: Option<Etag>)
      returns (page: Page)
      requires Valid() && clock <= trip.arrived <= trip.served
      requires trip.reply.Ok? ==> Answers(foreign, pages, trip.reply.value, outcome, condition)
      requires if request.Post? then outcome.Refused? else writes && ConditionHeld(url, request.ifNoneMatch)
      modifies this, cache
      ensures Valid() && clock == trip.served
      ensures page != ErrorPage ==>
                && outcome.Fetched? && Presents(foreign, url, outcome.html, None, page)
                && url in ledger.latest
                && ledger.latest[url].html == outcome.html && ledger.latest[url].at == trip.arrived
                && (page.Shown? && page.ttl > 0 ==> page.ttl <= StoredAge(ledger.latest[url], maxTtl))
      ensures trip.reply.Ok? && outcome.Fetched? && condition == Condition(request) ==>
                Presents(foreign, url, outcome.html, None, page)
      ensures page.Shown? ==> TtlRight(page.ttl, url, outcome, condition, trip.served)
      ensures Moves(old(ledger), if cache == null then map[] else old(cache.entries), url,
                    EffectOf(foreign, cache != null, request, trip.reply.Ok?, trip.arrived, outcome, condition),
                    outcome)
    {
      hide AllHeld, Lawful, Answers, DecodeHeader, DecodePayload, Presents, Respond, Show, EffectiveTtl, Utf8.Valid;
      if trip.reply.Err? {
        Tick(trip.served);
        return ErrorPage;
      }
      var data := trip.reply.value;
      ReplyRead(foreign, pages, data, outcome, condition);
      Tick(trip.served);
      var header := DecodeHeader(data);
      if !header.Header? || |data| < header.end + header.payloadLen {
        return ErrorPage;
      }
      match header.status {
        case StatusNotModified =>
          var sentEtag := Condition(request);
          if !writes || cache == null || sentEtag != Some(header.etag) {
            return ErrorPage;
          }
          page := Revalidate(url, header.etag, trip, outcome.html);
        case StatusOk =>
          var compressed := DecodePayload(data[header.end..header.end + header.payloadLen]);
          if compressed.None? {
            return ErrorPage;
          }
          if writes {
            Store(url, header.etag, compressed.value, header.maxAge, trip.arrived, outcome.html);
          }
          var html := foreign.decompress(compressed.value);
          ArrivedPresents(foreign, pages, url, outcome.html, EffectiveTtl(header.maxAge, maxTtl));
          ShownTtl(foreign, url, outcome.html, header.etag, header.maxAge, maxTtl);
          page := if html.None? || !Utf8.Valid(html.value) then ErrorPage
                  else Show(foreign, url, html.value, header.etag, EffectiveTtl(header.maxAge, maxTtl));
        case StatusErr => page := ErrorPage;
        case StatusBlocked => page := ErrorPage;
      }
    }

    /** The request a browse sends when it goes out: a POST, an unconditional GET, or a GET conditional on the entry. */
    ghost function Asked(url: Url, post: Option<seq<byte>>, nocache: bool): RequestCodec.Request
      reads this, cache
    {
      if post.Some? then RequestCodec.Post(url, post.value)
      else
        var held := !nocache && cache != null && url in cache.entries;
        RequestCodec.Get(url, if held then Some(cache.entries[url].etag) else None)
    }

    /** The cache answers alone exactly for a plain GET of an entry that is fresh now. */
    ghost predicate AnsweredLocally(url: Url, post: Option<seq<byte>>, nocache: bool, now: nat)
      reads this, cache
    {
      && post.None? && !nocache && cache != null && url in cache.entries
      && var e := cache.entries[url]; IsFresh(Hit(e.etag, e.body, e.fetchedAt, e.maxAge), now)
    }

    method HandleBrowse(url: Url, post: Option<seq<byte>>, nocache: bool, browserCondition: Option<Etag>,
                        connected: bool, now: nat, trip: Trip, ghost outcome: Outcome, ghost condition: Option<Etag>)
      returns (page: Page, sent: Option<RequestCodec.Request>)
      requires Valid() && clock <= now <= trip.arrived <= trip.served
      requires trip.reply.Ok? ==> Answers(foreign, pages, trip.reply.value, outcome, condition)
      requires post.Some? ==> outcome.Refused?
      modifies this, cache
      ensures Valid()
      ensures clock == if sent.Some? then trip.served else old(clock)
      ensures sent.None? ==> ledger == old(ledger)
      ensures connected && (post.Some? || nocache || cache == null || url !in old(cache.entries)) ==> sent.Some?
      ensures connected && post.None? && !nocache && cache != null && url in old(cache.entries) ==>
                url in old(ledger).stored && (sent.None? <==> StillFresh(old(ledger).stored[url], maxTtl, now))
      ensures sent.Some? && sent.value.Get? && sent.value.ifNoneMatch.Some? ==>
                && url in old(ledger).stored && !StillFresh(old(ledger).stored[url], maxTtl, now)
                && sent.value.ifNoneMatch == Some(foreign.hash(old(ledger).stored[url].html))
      ensures !connected ==>
                page == ToConnectPage && sent == None && (cache != null ==> cache.entries == old(cache.entries))
      ensures connected && old(AnsweredLocally(url, post, nocache, now)) ==>
                && sent == None && FromCache(url, browserCondition, page, now)
                && cache.entries == Used(old(cache.entries), url, now)
      ensures connected && !old(AnsweredLocally(url, post, nocache, now)) ==>
                && sent == Some(old(Asked(url, post, nocache)))
                && Moves(old(ledger), if cache == null then map[] else old(cache.entries), url,
                         EffectOf(foreign, cache != null, sent.value, trip.reply.Ok?, trip.arrived, outcome, condition),
                         outcome)
                && (page.Shown? ==> TtlRight(page.ttl, url, outcome, condition, trip.served))
                && (page != ErrorPage ==> outcome.Fetched? && Presents(foreign, url, outcome.html, None, page))
                && (trip.reply.Ok? && outcome.Fetched? && condition == Condition(sent.value) ==>
                      Presents(foreign, url, outcome.html, None, page))
    {
      hide EntryHeld, AllHeld, Lawful, Answers, Presents, IsFresh, ServeFromHit, StillFresh, TtlRight, KeptWithin;
      hide Recent;
      hide LedgerMoves, TableMoves, EffectOf, Used, Proxy.Moves, Proxy.FromCache;
      if cache != null && url in cache.entries {
        EntryAt(foreign, pages, maxTtl, clock, ledger, cache.entries, url);
        FreshExactly(foreign, pages, maxTtl, clock, ledger, url, cache.entries[url], now);
      }
      if !connected {
        return ToConnectPage, None;
      }
      if post.Some? {
        var postRequest := RequestCodec.Post(url, post.value);
        page := DispatchAx25(url, postRequest, false, trip, outcome, condition);
        return page, Some(postRequest);
      }
      var cachedEtag := None;
      if !nocache && cache != null {
        var hit := cache.Lookup(url);
        if hit.Some? && IsFresh(hit.value, now) {
          page := ServeFresh(url, hit.value, browserCondition, now);
          return page, None;
        }
        if hit.Some? {
          cachedEtag := Some(hit.value.etag);
        }
      }
      var request := RequestCodec.Get(url, cachedEtag);
      page := DispatchAx25(url, request, true, trip, outcome, condition);
      sent := Some(request);
    }

    /** A page that came out of the cache without radio traffic is the stored one, and its confirmation is recent. */
    ghost predicate FromCache(url: Url, kept: Option<Etag>, page: Page, now: nat)
      reads this
    {
      && url in ledger.stored && Presents(foreign, url, ledger.stored[url].html, kept, page)
      && (page.BrowserCopyFresh? <==> kept == Some(foreign.hash(ledger.stored[url].html)))
      && StillFresh(ledger.stored[url], maxTtl, now)
      && Recent(ledger.stored[url], maxTtl, now) && KeptWithin(page, ledger.stored[url], maxTtl, now)
      && url in ledger.latest && (ledger.latest[url].maxAge >= 0 ==> ledger.latest[url] == ledger.stored[url])
    }

    /** The operator may drop entries at any time. */
    method DeletePage(url: Url)
      requires Valid() && cache != null
      modifies cache
      ensures Valid() && cache.entries == old(cache.entries) - {url}
    {
      cache.Delete(url);
    }

    method ClearPages()
      requires Valid() && cache != null
      modifies cache
      ensures Valid() && cache.entries == map[]
    {
      cache.Clear();
    }

    method ServeFresh(url: Url, hit: Hit, browserCondition: Option<Etag>, now: nat) returns (page: Page)
      requires Valid() && clock <= now && cache != null && url in cache.entries && IsFresh(hit, now)
      requires var e := cache.entries[url]; hit == Hit(e.etag, e.body, e.fetchedAt, e.maxAge)
      modifies cache
      ensures Valid() && FromCache(url, browserCondition, page, now)
      ensures cache.entries == Used(old(cache.entries), url, now)
    {
      ghost var before := cache.entries;
      EntryAt(foreign, pages, maxTtl, clock, ledger, before, url);
      HitPresents(foreign, pages, maxTtl, clock, ledger, url, before[url], now);
      HitKeptWithin(foreign, pages, maxTtl, clock, ledger, url, before[url], now);
      FreshIsRecent(foreign, pages, maxTtl, clock, ledger, url, before[url], now);
      FreshExactly(foreign, pages, maxTtl, clock, ledger, url, before[url], now);
      UsedHeld(foreign, pages, maxTtl, clock, ledger, before, url, now);
      cache.TouchLastUsed(url, now);
      if browserCondition == Some(hit.etag) {
        return BrowserCopyFresh(hit.etag);
      }
      hide AllHeld, Lawful, ServeFromHit, Recent;
      page := ServeFromHit(foreign, hit, url, now);
    }
  }

  lemma ArrivedPresents(f: Foreign, pages: iset<Html>, url: Url, html: Html, ttl: nat)
    requires Lawful(f, pages) && html in pages
    ensures Utf8.Valid(html)
    ensures f.decompress(f.compress(html)) == Some(html)
    ensures Presents(f, url, html, None, Show(f, url, html, f.hash(html), ttl))
  {
  }

  lemma ShownTtl(f: Foreign, url: Url, html: Html, etag: Etag, maxAge: int, maxTtl: nat)
    ensures var page := Show(f, url, html, etag, EffectiveTtl(maxAge, maxTtl));
            page.Shown? && page.ttl > 0 ==> maxAge > 0 && page.ttl <= maxAge && page.ttl <= maxTtl
    ensures var page := Show(f, url, html, etag, EffectiveTtl(maxAge, maxTtl));
            page.Shown? ==> page.ttl == if maxAge <= 0 then 0 else if maxAge < maxTtl then maxAge else maxTtl
  {
  }

  lemma SamePage(f: Foreign, pages: iset<Html>, a: Html, b: Html)
    requires Lawful(f, pages) && a in pages && b in pages && f.hash(a) == f.hash(b)
    ensures a == b
  {
  }

  /**
   When a cached page is the last page the server sent or confirmed: exactly
   if that last page was storable or has the cached etag. A no-store page with
   another etag leaves the older entry to be served.
   */
  lemma LatestExactly(f: Foreign, pages: iset<Html>, maxTtl: nat, clock: nat, ledger: Ledger, url: Url, e: Entry)
    requires Lawful(f, pages) && EntryHeld(f, pages, maxTtl, clock, ledger, url, e)
    ensures ledger.latest[url].html == ledger.stored[url].html <==>
            ledger.latest[url].maxAge >= 0 || f.hash(ledger.latest[url].html) == e.etag
  {
    if f.hash(ledger.latest[url].html) == e.etag {
      SamePage(f, pages, ledger.latest[url].html, ledger.stored[url].html);
    }
  }

  /**
   A run that shows it: `a` arrives for five minutes, a reload brings `b` under
   no-store, and a plain browse within `a`'s time is answered with `a` alone.
   It takes an operator's limit above zero, or nothing is ever fresh.
   */
  method NoStoreLeavesOlder(p: Proxy, url: Url, a: Html, b: Html, first: Trip, second: Trip, third: Trip, now: nat)
    returns (page: Page, sent: Option<RequestCodec.Request>)
    requires p.Valid() && p.cache != null && p.maxTtl > 0 && a != b
    requires first.reply.Ok? && Answers(p.foreign, p.pages, first.reply.value, Fetched(a, 300), None)
    requires second.reply.Ok? && Answers(p.foreign, p.pages, second.reply.value, Fetched(b, -1), None)
    requires third.reply.Err?
    requires p.clock <= first.arrived <= first.served <= second.arrived <= second.served <= now
    requires now <= third.arrived <= third.served
    requires now - Seconds(first.arrived) * TICKS < (if 300 < p.maxTtl then 300 else p.maxTtl) * TICKS
    modifies p, p.cache
    ensures p.Valid() && url in p.ledger.latest && p.ledger.latest[url].html == b
    ensures sent == None && Presents(p.foreign, url, a, None, page)
  {
    hide AllHeld, Lawful, Answers, Presents, KeptWithin;
    var one, two;
    page, one := p.HandleBrowse(url, None, true, None, true, first.arrived, first, Fetched(a, 300), None);
    page, two := p.HandleBrowse(url, None, true, None, true, first.served, second, Fetched(b, -1), None);
    SecondsBelow(first.arrived);
    page, sent := p.HandleBrowse(url, None, false, None, true, now, third, Refused(false, []), None);
  }

  // ----- A whole history -----

  /** One browse, in the order of `HandleBrowse`'s parameters. */
  datatype Visit = Visit(
    url: Url, post: Option<seq<byte>>, nocache: bool, browserCondition: Option<Etag>,
    connected: bool, now: nat, trip: Trip)

  datatype Action = Browse(visit: Visit) | Delete(url: Url) | Clear

  /** Browses do not overlap and the clock does not run backwards. */
  ghost predicate Orderly(clock: nat, actions: seq<Action>) {
    && (forall i :: 0 <= i < |actions| && actions[i].Browse? ==>
          var v := actions[i].visit; clock <= v.now <= v.trip.arrived <= v.trip.served)
    && (forall i, j :: 0 <= i < j < |actions| && actions[i].Browse? && actions[j].Browse? ==>
          actions[i].visit.trip.served <= actions[j].visit.now)
  }

  /**
   What is known after some of the actions: those before `|sent|` are done, and
   the browses among them sent these requests.
   */
  datatype History = History(
    foreign: Foreign, cached: bool, actions: seq<Action>, outcomes: seq<Outcome>, conditions: seq<Option<Etag>>,
    sent: seq<Option<RequestCodec.Request>>)
  {
    ghost predicate Valid() {
      |sent| <= |actions| == |outcomes| == |conditions|
    }

    /** What action `i` did to the record: only what comes back over the link does anything. */
    ghost function EffectAt(i: nat): Effect
      requires Valid() && i < |sent|
    {
      if actions[i].Browse? && sent[i].Some? then
        var trip := actions[i].visit.trip;
        EffectOf(foreign, cached, sent[i].value, trip.reply.Ok?, trip.arrived, outcomes[i], conditions[i])
      else Nothing
    }

    /** Browse `i` went out and brought a page for the cache. */
    ghost predicate Stores(i: nat, url: Url)
      requires Valid() && i < |sent|
    {
      EffectAt(i).PageArrived? && EffectAt(i).page.maxAge >= 0 && actions[i].visit.url == url
    }

    /** Browse `i` went out and brought a page for the cache, or had the entry confirmed. */
    ghost predicate Renews(i: nat, url: Url)
      requires Valid() && i < |sent|
    {
      Stores(i, url) || (EffectAt(i).EntryConfirmed? && actions[i].visit.url == url)
    }

    /** Browse `l` was the last to bring a page for this URL, `j` the last to bring or confirm it. */
    ghost predicate LastStore(l: nat, j: nat, url: Url)
      requires Valid()
    {
      && l <= j < |sent| && Stores(l, url) && Renews(j, url)
      && (forall m :: l < m < |sent| ==> !Stores(m, url))
      && (forall m :: j < m < |sent| ==> !Renews(m, url))
      && actions[j].Browse? && outcomes[l].Fetched? && outcomes[j].Fetched? && outcomes[j].html == outcomes[l].html
    }

    ghost predicate Traced(url: Url, s: Sent)
      requires Valid()
    {
      exists l: nat, j: nat :: LastStore(l, j, url) && s == RecordOf(l, j)
    }

    ghost function RecordOf(l: nat, j: nat): Sent
      requires Valid() && l < |sent| && j < |sent|
      requires actions[j].Browse? && outcomes[l].Fetched?
    {
      Sent(outcomes[l].html, actions[j].visit.trip.arrived, outcomes[l].maxAge)
    }

    ghost predicate AllTraced(ledger: Ledger)
      requires Valid()
    {
      forall url :: url in ledger.stored ==> Traced(url, ledger.stored[url])
    }

    /** The page that came up in browse `i`. */
    ghost function PageOf(i: nat): Html
      requires Valid() && i < |actions|
    {
      if outcomes[i].Fetched? then outcomes[i].html else []
    }

    /** The next action moved the ledger as its effect says. */
    ghost predicate LedgerStep(request: Option<RequestCodec.Request>, before: Ledger, after: Ledger)
      requires Valid() && |sent| < |actions|
    {
      var n := |sent|;
      if actions[n].Browse? then
        LedgerMoves(before, after, actions[n].visit.url, Then(request).EffectAt(n), PageOf(n))
      else after == before
    }

    /** What was known when action `k` began. */
    ghost function Before(k: nat): (h: History)
      requires Valid() && k <= |sent|
      ensures h.Valid()
    {
      this.(sent := sent[..k])
    }

    ghost function Then(request: Option<RequestCodec.Request>): (h: History)
      requires Valid() && |sent| < |actions|
      ensures h.Valid()
    {
      this.(sent := sent + [request])
    }

    /**
     Browse `k` was answered without radio traffic: it was a plain GET, its page
     is the one that the last browse to store one (`l`) brought, and the last
     browse to bring or confirm it (`j`) had its reply less than `l`'s age and
     the operator's limit before.
     */
    ghost predicate RecentAt(k: nat, maxTtl: nat, page: Page)
      requires Valid() && k < |sent| && actions[k].Browse?
    {
      var v := actions[k].visit;
      && v.post.None? && !v.nocache
      && exists l: nat, j: nat :: Before(k).LastStore(l, j, v.url) && ShowsRecent(l, j, v, maxTtl, page)
    }

    /** Browse `k` was answered over the link: it asked for what the browser asked for and shows what the server has. */
    ghost predicate FetchedAt(k: nat, maxTtl: nat, request: RequestCodec.Request, page: Page)
      requires Valid() && k < |sent| && actions[k].Browse?
    {
      var v, outcome := actions[k].visit, outcomes[k];
      && (if v.post.Some? then request == RequestCodec.Post(v.url, v.post.value)
          else request.Get? && request.url == v.url && (v.nocache ==> request.ifNoneMatch.None?))
      && (request.Get? && request.ifNoneMatch.Some? ==>
            exists l: nat, j: nat :: Before(k).LastStore(l, j, v.url) && AsksStale(l, j, v, maxTtl, request))
      && (page != ErrorPage ==> outcome.Fetched? && Presents(foreign, v.url, outcome.html, None, page))
      && (v.trip.reply.Ok? && outcome.Fetched? && conditions[k] == Condition(request) ==>
            Presents(foreign, v.url, outcome.html, None, page))
    }

    /** The entry asked about is the page that `l` brought, and it is not fresh any more. */
    ghost predicate AsksStale(l: nat, j: nat, v: Visit, maxTtl: nat, request: RequestCodec.Request)
      requires Valid() && l < |sent| && j < |sent| && request.Get?
      requires actions[j].Browse? && outcomes[l].Fetched?
    {
      request.ifNoneMatch == Some(foreign.hash(outcomes[l].html)) && !StillFresh(RecordOf(l, j), maxTtl, v.now)
    }

    ghost predicate AnsweredAt(k: nat, maxTtl: nat, page: Page)
      requires Valid() && k < |sent|
    {
      match actions[k]
      case Browse(v) =>
        if !v.connected then page == ToConnectPage && sent[k].None?
        else if sent[k].Some? then FetchedAt(k, maxTtl, sent[k].value, page)
        else RecentAt(k, maxTtl, page)
      case _ => sent[k].None?
    }

    ghost predicate ShowsRecent(l: nat, j: nat, v: Visit, maxTtl: nat, page: Page)
      requires Valid() && l < |sent| && j < |sent|
      requires actions[j].Browse? && outcomes[l].Fetched?
    {
      && Presents(foreign, v.url, outcomes[l].html, v.browserCondition, page)
      && Recent(RecordOf(l, j), maxTtl, v.now) && StillFresh(RecordOf(l, j), maxTtl, v.now)
    }

    /** So it was for every action so far. */
    ghost predicate AllAnswered(maxTtl: nat, shown: seq<Page>)
      requires Valid()
    {
      |shown| == |sent| && forall k :: 0 <= k < |sent| ==> AnsweredAt(k, maxTtl, shown[k])
    }
  }

  /** One more action changes nothing about the earlier ones. */
  lemma EarlierKept(h: History, request: Option<RequestCodec.Request>)
    requires h.Valid() && |h.sent| < |h.actions|
    ensures forall i :: 0 <= i < |h.sent| ==> h.Then(request).EffectAt(i) == h.EffectAt(i)
    ensures forall k :: 0 <= k <= |h.sent| ==> h.Then(request).Before(k) == h.Before(k)
  {
    forall k | 0 <= k <= |h.sent|
      ensures h.Then(request).Before(k) == h.Before(k)
    {
      assert (h.sent + [request])[..k] == h.sent[..k];
    }
    hide EffectOf;
  }

  /** What an action's effect takes over from its browse. */
  lemma EffectFrom(h: History, i: nat)
    requires h.Valid() && i < |h.sent|
    ensures h.EffectAt(i) != Nothing ==> h.actions[i].Browse? && h.outcomes[i].Fetched?
    ensures h.EffectAt(i).PageArrived? ==> h.EffectAt(i).page == h.RecordOf(i, i)
    ensures h.EffectAt(i).EntryConfirmed? ==> h.EffectAt(i).at == h.actions[i].visit.trip.arrived
  {
  }

  lemma NothingMoves(ledger: Ledger, action: Action, html: Html)
    ensures action.Browse? ==> LedgerMoves(ledger, ledger, action.visit.url, Nothing, html)
  {
  }

  /** The page on record for any URL, after an effect on one of them. */
  lemma RecordAfter(before: Ledger, after: Ledger, here: Url, e: Effect, html: Html, url: Url)
    requires LedgerMoves(before, after, here, e, html) && url in after.stored
    ensures if e.PageArrived? && e.page.maxAge >= 0 && url == here then after.stored[url] == e.page
            else
              && url in before.stored
              && (if e.EntryConfirmed? && url == here then
                    before.stored[url].html == html && after.stored[url] == before.stored[url].(at := e.at)
                  else after.stored[url] == before.stored[url])
  {
  }

  lemma TracedStep(h: History, request: Option<RequestCodec.Request>, before: Ledger, after: Ledger)
    requires h.Valid() && |h.sent| < |h.actions| && h.AllTraced(before)
    requires h.LedgerStep(request, before, after)
    ensures h.Then(request).AllTraced(after)
  {
    forall url | url in after.stored
      ensures h.Then(request).Traced(url, after.stored[url])
    {
      TracedAfter(h, request, before, after, url);
    }
  }

  lemma TracedAfter(h: History, request: Option<RequestCodec.Request>, before: Ledger, after: Ledger, url: Url)
    requires h.Valid() && |h.sent| < |h.actions| && h.AllTraced(before)
    requires h.LedgerStep(request, before, after) && url in after.stored
    ensures h.Then(request).Traced(url, after.stored[url])
  {
    var g, n := h.Then(request), |h.sent|;
    EarlierKept(h, request);
    EffectFrom(g, n);
    hide LedgerMoves, EffectOf, History.EffectAt, History.LastStore;
    if g.actions[n].Browse? {
      RecordAfter(before, after, g.actions[n].visit.url, g.EffectAt(n), g.PageOf(n), url);
    }
    if g.Stores(n, url) {
      StoredNow(g, url);
    } else {
      var l: nat, j: nat :| h.LastStore(l, j, url) && before.stored[url] == h.RecordOf(l, j);
      LastKept(h, request, l, j, url);
    }
  }

  lemma StoredNow(g: History, url: Url)
    requires g.Valid() && g.sent != [] && g.Stores(|g.sent| - 1, url)
    ensures g.LastStore(|g.sent| - 1, |g.sent| - 1, url)
  {
    EffectFrom(g, |g.sent| - 1);
  }

  lemma LastKept(h: History, request: Option<RequestCodec.Request>, l: nat, j: nat, url: Url)
    requires h.Valid() && |h.sent| < |h.actions| && h.LastStore(l, j, url)
    requires !h.Then(request).Stores(|h.sent|, url)
    ensures var g, n := h.Then(request), |h.sent|;
            if g.Renews(n, url) then
              h.outcomes[n].Fetched? && h.outcomes[n].html == h.outcomes[l].html ==> g.LastStore(l, n, url)
            else g.LastStore(l, j, url)
  {
    EarlierKept(h, request);
    EffectFrom(h.Then(request), |h.sent|);
    hide History.EffectAt;
    var g := h.Then(request);
    assert forall m :: 0 <= m < |h.sent| ==>
        g.Stores(m, url) == h.Stores(m, url) && g.Renews(m, url) == h.Renews(m, url);
  }

  lemma AnsweredStep(h: History, request: Option<RequestCodec.Request>, maxTtl: nat, shown: seq<Page>, page: Page)
    requires h.Valid() && |h.sent| < |h.actions| && h.AllAnswered(maxTtl, shown)
    requires h.Then(request).AnsweredAt(|h.sent|, maxTtl, page)
    ensures h.Then(request).AllAnswered(maxTtl, shown + [page])
  {
    EarlierKept(h, request);
  }

  lemma TracedRecently(p: Proxy, h: History, v: Visit, page: Page)
    requires h.Valid() && |h.sent| < |h.actions| && h.foreign == p.foreign && h.actions[|h.sent|] == Browse(v)
    requires h.AllTraced(p.ledger) && p.FromCache(v.url, v.browserCondition, page, v.now)
    requires v.post.None? && !v.nocache
    ensures h.Then(None).RecentAt(|h.sent|, p.maxTtl, page)
  {
    hide Presents, KeptWithin, EffectOf, History.EffectAt;
    var l: nat, j: nat :| h.LastStore(l, j, v.url) && p.ledger.stored[v.url] == h.RecordOf(l, j);
    EarlierKept(h, None);
    assert h.Then(None).Before(|h.sent|) == h;
    assert h.Then(None).ShowsRecent(l, j, v, p.maxTtl, page);
  }

  /** An etag is sent for an entry on record that is fresh no more. */
  lemma TracedStale(h: History, v: Visit, ledger: Ledger, maxTtl: nat, request: RequestCodec.Request)
    requires h.Valid() && |h.sent| < |h.actions| && h.actions[|h.sent|] == Browse(v) && h.AllTraced(ledger)
    requires request.Get? && request.ifNoneMatch.Some? && v.url in ledger.stored
    requires request.ifNoneMatch == Some(h.foreign.hash(ledger.stored[v.url].html))
    requires !StillFresh(ledger.stored[v.url], maxTtl, v.now)
    ensures var g, n := h.Then(Some(request)), |h.sent|;
            exists l: nat, j: nat :: g.Before(n).LastStore(l, j, v.url) && g.AsksStale(l, j, v, maxTtl, request)
  {
    hide EffectOf, History.EffectAt, StillFresh;
    var l: nat, j: nat :| h.LastStore(l, j, v.url) && ledger.stored[v.url] == h.RecordOf(l, j);
    EarlierKept(h, Some(request));
    assert h.Then(Some(request)).Before(|h.sent|) == h;
    assert h.Then(Some(request)).AsksStale(l, j, v, maxTtl, request);
  }

  lemma Stepped(h: History, v: Visit, request: Option<RequestCodec.Request>, before: Ledger, after: Ledger)
    requires h.Valid() && |h.sent| < |h.actions| && h.actions[|h.sent|] == Browse(v)
    requires request.None? ==> after == before
    requires request.Some? ==>
               LedgerMoves(before, after, v.url,
                           EffectOf(h.foreign, h.cached, request.value, v.trip.reply.Ok?, v.trip.arrived,
                                    h.outcomes[|h.sent|], h.conditions[|h.sent|]), h.PageOf(|h.sent|))
    ensures h.LedgerStep(request, before, after)
  {
    NothingMoves(before, h.actions[|h.sent|], h.PageOf(|h.sent|));
    hide LedgerMoves, EffectOf;
  }

  /** The next action is a browse. */
  method BrowseNext(p: Proxy, v: Visit, ghost h: History) returns (page: Page, request: Option<RequestCodec.Request>)
    requires p.Valid() && h.Valid() && |h.sent| < |h.actions| && h.actions[|h.sent|] == Browse(v)
    requires h.foreign == p.foreign && h.cached == (p.cache != null) && h.AllTraced(p.ledger)
    requires p.clock <= v.now <= v.trip.arrived <= v.trip.served
    requires var outcome, condition := h.outcomes[|h.sent|], h.conditions[|h.sent|];
             && (v.trip.reply.Ok? ==> Answers(p.foreign, p.pages, v.trip.reply.value, outcome, condition))
             && (v.post.Some? ==> outcome.Refused?)
    modifies p, p.cache
    ensures p.Valid() && p.clock <= v.trip.served
    ensures h.LedgerStep(request, old(p.ledger), p.ledger)
    ensures h.Then(request).AnsweredAt(|h.sent|, p.maxTtl, page)
  {
    hide AllHeld, Lawful, Answers, Presents, KeptWithin, IsFresh, LedgerMoves, TableMoves, EffectOf, StillFresh;
    hide Proxy.FromCache, Used, Proxy.TtlRight, History.RecentAt, History.LedgerStep, History.EffectAt;
    ghost var before, n := p.ledger, |h.sent|;
    page, request := p.HandleBrowse(v.url, v.post, v.nocache, v.browserCondition, v.connected, v.now, v.trip,
                                    h.outcomes[n], h.conditions[n]);
    Stepped(h, v, request, before, p.ledger);
    if request.None? && v.connected {
      TracedRecently(p, h, v, page);
    } else if request.Some? && request.value.Get? && request.value.ifNoneMatch.Some? {
      TracedStale(h, v, before, p.maxTtl, request.value);
    }
  }

  /**
   Bounded staleness over a whole history that starts with an empty cache:
   whatever is answered without radio traffic is the page that the last browse
   of that URL to store one brought, and the last reply to bring or confirm it
   came less than the stored age and the operator's limit ago.
   */
  method BrowseAll(p: Proxy, actions: seq<Action>, ghost outcomes: seq<Outcome>, ghost conditions: seq<Option<Etag>>)
    returns (shown: seq<Page>, sent: seq<Option<RequestCodec.Request>>)
    requires p.Valid() && p.ledger == Ledger(map[], map[])
    requires |outcomes| == |conditions| == |actions| && Orderly(p.clock, actions)
    requires forall i :: 0 <= i < |actions| && actions[i].Browse? ==>
               var v := actions[i].visit;
               && (v.trip.reply.Ok? ==> Answers(p.foreign, p.pages, v.trip.reply.value, outcomes[i], conditions[i]))
               && (v.post.Some? ==> outcomes[i].Refused?)
    modifies p, p.cache
    ensures p.Valid() && |shown| == |sent| == |actions|
    ensures History(p.foreign, p.cache != null, actions, outcomes, conditions, sent).AllAnswered(p.maxTtl, shown)
  {
    hide AllHeld, Lawful, Answers, LedgerMoves, EffectOf, History.RecentAt, History.FetchedAt;
    shown, sent := [], [];
    ghost var h := History(p.foreign, p.cache != null, actions, outcomes, conditions, []);
    for i := 0 to |actions|
      invariant p.Valid() && |shown| == |sent| == i
      invariant h == History(p.foreign, p.cache != null, actions, outcomes, conditions, sent)
      invariant forall j :: i <= j < |actions| && actions[j].Browse? ==> p.clock <= actions[j].visit.now
      invariant h.AllTraced(p.ledger) && h.AllAnswered(p.maxTtl, shown)
    {
      var page, request := ErrorPage, None;
      ghost var before := p.ledger;
      match actions[i] {
        case Browse(v) =>
          page, request := BrowseNext(p, v, h);
        case Delete(url) =>
          if p.cache != null {
            p.DeletePage(url);
          }
        case Clear =>
          if p.cache != null {
            p.ClearPages();
          }
      }
      TracedStep(h, request, before, p.ledger);
      AnsweredStep(h, request, p.maxTtl, shown, page);
      h := h.Then(request);
      shown, sent := shown + [page], sent + [request];
    }
  }
}
