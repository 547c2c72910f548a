/** The request loops of the S3 client: bounded retries of one PUT, uploads in parts and
    paginated listings. */
module Transfers {
  import opened Requests
  import opened Text

  const RETRY_ATTEMPTS: nat := 3
  const MAX_PARTS: nat := 10_000
  const MAX_LIST_KEYS: nat := 10_000
  const MAX_LIST_PAGES: nat := 1024

  // ---------------------------------------------------------------- retries

  /** One attempt at a PUT: acknowledged, or failed with an error worth retrying or not,
      and then perhaps applied all the same. */
  datatype Attempt = Acknowledged | Erred(applied: bool, retryable: bool)

  /** A store after one PUT that ended this way; `apply` is the effect of the PUT. */
  function Put<S>(s: S, apply: S -> S, answer: Answer): S {
    if answer.Lost? then s else apply(s)
  }

  /** What a series of attempts amounts to. */
  function Combined(attempts: nat -> Attempt, n: nat): Answer {
    if n == 0 then Lost
    else
      match attempts(n - 1)
      case Acknowledged => Stored
      case Erred(applied, _) => if applied || !Combined(attempts, n - 1).Lost? then StoredUnacknowledged else Lost
  }

  /** Retrying an idempotent PUT is one PUT that is stored, lost, or stored
      unacknowledged: at most three attempts, each but the last failed with a retryable
      error, and the store they leave behind. */
  method Retrying<S(!new)>(s: S, apply: S -> S, attempts: nat -> Attempt) returns (s': S, answer: Answer, used: nat)
    requires forall x :: apply(apply(x)) == apply(x)
    ensures 1 <= used <= 3 && answer == Combined(attempts, used)
    ensures s' == Put(s, apply, answer)
    ensures answer.Stored? <==> attempts(used - 1).Acknowledged?
    ensures forall k :: 0 <= k < used - 1 ==> attempts(k).Erred? && attempts(k).retryable
    ensures !answer.Stored? && used < 3 ==> !attempts(used - 1).retryable
  {
    s', used := s, 0;
    while true
      invariant 0 <= used < RETRY_ATTEMPTS && s' == Put(s, apply, Combined(attempts, used))
      invariant forall k :: 0 <= k < used ==> attempts(k).Erred? && attempts(k).retryable
      decreases RETRY_ATTEMPTS - used
    {
      var a := attempts(used);
      used := used + 1;
      if a.Acknowledged? || a.applied {
        s' := apply(s');
      }
      if a.Acknowledged? || used >= RETRY_ATTEMPTS || !a.retryable {
        return s', Combined(attempts, used), used;
      }
    }
  }

  // ----------------------------------------------------------------- parts

  /** What the environment decides over one part. */
  datatype Part = Part(stop: bool, stored: bool, etag: Option<string>)

  /** How many parts a file needs. */
  function PartsFor(size: nat, partSize: nat): nat
    requires partSize > 0
    decreases size
  {
    if size == 0 then 0 else if size <= partSize then 1 else 1 + PartsFor(size - partSize, partSize)
  }

  /** Completing the upload joins the parts in the order of their numbers. */
  function Assembled(parts: seq<seq<byte>>, n: nat): seq<byte>
    requires n <= |parts|
  {
    if n == 0 then [] else Assembled(parts, n - 1) + parts[n - 1]
  }

  lemma {:induction false} AssembledGrows(parts: seq<seq<byte>>, last: seq<byte>, n: nat)
    requires n <= |parts|
    ensures Assembled(parts + [last], n) == Assembled(parts, n)
  {
    if n > 0 {
      AssembledGrows(parts, last, n - 1);
    }
  }

  /** Uploads the first `size` bytes of the file in parts. It succeeds exactly when the
      file is that long, the parts are few enough and every one is accepted; the parts
      then assemble to those bytes, and all but the last are of full size. */
  method PutParts(content: seq<byte>, size: nat, partSize: nat, answers: nat -> Part)
    returns (etags: Option<seq<string>>, parts: seq<seq<byte>>)
    requires partSize > 0
    ensures etags.Some? <==>
              size <= |content| && PartsFor(size, partSize) <= 10_000
              && forall k :: 0 <= k < PartsFor(size, partSize) ==>
                   !answers(k).stop && answers(k).stored && answers(k).etag.Some?
    ensures etags.Some? ==>
              && |etags.value| == |parts| == PartsFor(size, partSize)
              && size <= |content| && Assembled(parts, |parts|) == content[..size]
              && (forall k :: 0 <= k < |parts| ==>
                    0 < |parts[k]| <= partSize && answers(k).etag == Some(etags.value[k]))
              && (forall k :: 0 <= k < |parts| - 1 ==> |parts[k]| == partSize)
  {
    parts := [];
    var tags: seq<string> := [];
    var offset := 0;
    while offset < size
      invariant 0 <= offset <= size && |tags| == |parts| <= MAX_PARTS
      invariant |parts| + PartsFor(size - offset, partSize) == PartsFor(size, partSize)
      invariant offset <= |content| && Assembled(parts, |parts|) == content[..offset]
      invariant forall k :: 0 <= k < |parts| ==>
                && 0 < |parts[k]| <= partSize
                && !answers(k).stop && answers(k).stored && answers(k).etag == Some(tags[k])
      invariant forall k :: 0 <= k < |parts| && (k < |parts| - 1 || offset < size) ==> |parts[k]| == partSize
    {
      var answer := answers(|tags|);
      if answer.stop || |tags| >= MAX_PARTS {
        return None, parts;
      }
      var length := if size - offset < partSize then size - offset else partSize;
      if offset + length > |content| || !answer.stored || answer.etag.None? {
        return None, parts;
      }
      var chunk := content[offset..offset + length];
      AssembledGrows(parts, chunk, |parts|);
      assert content[..offset] + chunk == content[..offset + length];
      parts, tags, offset := parts + [chunk], tags + [answer.etag.value], offset + length;
    }
    return Some(tags), parts;
  }

  // --------------------------------------------------------------- listings

  datatype Item = Item(key: string, size: nat, lastModified: string)

  /** One page of a listing: unusable, or its items and the token of the next page. */
  datatype Page = Unusable | Page(items: seq<Item>, next: Option<string>)

  /** The token of request n, or None when the walk is over before it: a page was
      unusable, the last one, or repeated its own token. */
  function Asked(serve: (nat, Option<string>) -> Page, n: nat): Option<Option<string>> {
    if n == 0 then Some(None)
    else
      var before := Asked(serve, n - 1);
      if before.None? then None
      else
        match serve(n - 1, before.value)
        case Page(_, Some(token)) => if before.value == Some(token) then None else Some(Some(token))
        case _ => None
  }

  /** The page that ends a listing. */
  predicate Ends(serve: (nat, Option<string>) -> Page, n: nat) {
    Asked(serve, n).Some? && var page := serve(n, Asked(serve, n).value); page.Page? && page.next.None?
  }

  /** Everything on the first n pages. */
  function Gathered(serve: (nat, Option<string>) -> Page, n: nat): seq<Item> {
    if n == 0 then []
    else
      var before := Asked(serve, n - 1);
      Gathered(serve, n - 1)
      + if before.Some? && serve(n - 1, before.value).Page? then serve(n - 1, before.value).items else []
  }

  lemma {:induction false} WalkIsOver(serve: (nat, Option<string>) -> Page, m: nat, n: nat)
    requires m <= n && Asked(serve, m).None?
    ensures Asked(serve, n).None?
  {
    if m < n {
      WalkIsOver(serve, m, n - 1);
    }
  }

  lemma {:induction false} GatheredGrows(serve: (nat, Option<string>) -> Page, m: nat, n: nat)
    requires m <= n
    ensures |Gathered(serve, m)| <= |Gathered(serve, n)|
  {
    if m < n {
      GatheredGrows(serve, m, n - 1);
    }
  }

  ghost predicate ByKey(items: seq<Item>) {
    forall i, j :: 0 <= i < j < |items| ==> Le(items[i].key, items[j].key)
  }

  function Inserted(item: Item, items: seq<Item>): (r: seq<Item>)
    ensures multiset(r) == multiset(items) + multiset{item}
  {
    if items == [] || Le(item.key, items[0].key) then [item] + items
    else
      assert items == [items[0]] + items[1..];
      [items[0]] + Inserted(item, items[1..])
  }

  function SortedByKey(items: seq<Item>): (r: seq<Item>)
    ensures multiset(r) == multiset(items)
  {
    if items == [] then []
    else
      assert items == [items[0]] + items[1..];
      Inserted(items[0], SortedByKey(items[1..]))
  }

  lemma {:induction false} InsertedByKey(item: Item, items: seq<Item>)
    requires ByKey(items)
    ensures ByKey(Inserted(item, items))
  {
    var r := Inserted(item, items);
    if items == [] {
    } else if Le(item.key, items[0].key) {
      forall j | 0 < j < |r| ensures Le(r[0].key, r[j].key) {
        if j > 1 {
          LeTransitive(item.key, items[0].key, items[j - 1].key);
        }
      }
    } else {
      InsertedByKey(item, items[1..]);
      LeTotal(item.key, items[0].key);
      forall j | 0 < j < |r| ensures Le(r[0].key, r[j].key) {
        assert r[1..] == Inserted(item, items[1..]);
        assert r[j] == r[1..][j - 1];
        assert r[j] in multiset(r[1..]);
        assert r[j] == item || r[j] in items[1..];
      }
    }
  }

  lemma {:induction false} SortingOrders(items: seq<Item>)
    ensures ByKey(SortedByKey(items))
  {
    if items != [] {
      SortingOrders(items[1..]);
      InsertedByKey(items[0], SortedByKey(items[1..]));
    }
  }

  /** A page some listing ends with, within the bounds on pages and keys. */
  predicate Complete(serve: (nat, Option<string>) -> Page, n: nat) {
    n < MAX_LIST_PAGES && Ends(serve, n) && |Gathered(serve, n + 1)| <= MAX_LIST_KEYS
  }

  /** The tokens that lead from page to page: each page but the last hands out the next,
      and never the one it was asked with. */
  ghost predicate Walk(serve: (nat, Option<string>) -> Page, tokens: seq<Option<string>>) {
    && tokens != [] && tokens[0] == None
    && (forall k :: 0 <= k < |tokens| - 1 ==>
          && serve(k, tokens[k]).Page? && serve(k, tokens[k]).next.Some?
          && tokens[k + 1] == serve(k, tokens[k]).next && tokens[k + 1] != tokens[k])
    && (var page := serve(|tokens| - 1, tokens[|tokens| - 1]); page.Page? && page.next.None?)
  }

  /** The items of the pages asked for with these tokens. */
  ghost function PagesOf(serve: (nat, Option<string>) -> Page, tokens: seq<Option<string>>): seq<Item>
    requires forall k :: 0 <= k < |tokens| ==> serve(k, tokens[k]).Page?
  {
    if tokens == [] then []
    else PagesOf(serve, tokens[..|tokens| - 1]) + serve(|tokens| - 1, tokens[|tokens| - 1]).items
  }

  lemma {:induction false} WalkIsAsked(serve: (nat, Option<string>) -> Page, tokens: seq<Option<string>>, k: nat)
    requires Walk(serve, tokens) && k < |tokens|
    ensures Asked(serve, k) == Some(tokens[k])
  {
    if k > 0 {
      WalkIsAsked(serve, tokens, k - 1);
    }
  }

  lemma {:induction false} AskedIsWalk(serve: (nat, Option<string>) -> Page, n: nat)
    returns (tokens: seq<Option<string>>)
    requires Asked(serve, n).Some?
    ensures |tokens| == n + 1 && tokens[0] == None && tokens[n] == Asked(serve, n).value
    ensures forall k :: 0 <= k < n ==>
              && serve(k, tokens[k]).Page? && serve(k, tokens[k]).next.Some?
              && tokens[k + 1] == serve(k, tokens[k]).next && tokens[k + 1] != tokens[k]
  {
    if n == 0 {
      tokens := [None];
    } else {
      var front := AskedIsWalk(serve, n - 1);
      tokens := front + [Asked(serve, n).value];
    }
  }

  lemma {:induction false} GatheredIsPages(serve: (nat, Option<string>) -> Page, tokens: seq<Option<string>>)
    requires forall k :: 0 <= k < |tokens| ==> Asked(serve, k) == Some(tokens[k]) && serve(k, tokens[k]).Page?
    ensures Gathered(serve, |tokens|) == PagesOf(serve, tokens)
  {
    hide Asked;
    if tokens != [] {
      var front := tokens[..|tokens| - 1];
      forall k | 0 <= k < |front| ensures front[k] == tokens[k] {
      }
      GatheredIsPages(serve, front);
      assert Asked(serve, |front|) == Some(tokens[|front|]);
    }
  }

  /** A listing is complete exactly when some walk ends with that page and shows at most
      ten thousand items; the walk's pages are what it gathers. */
  lemma CompleteIsAWalk(serve: (nat, Option<string>) -> Page, n: nat)
    ensures Complete(serve, n)
            <==> n < 1024 && exists tokens :: |tokens| == n + 1 && Walk(serve, tokens)
                                              && |PagesOf(serve, tokens)| <= 10_000
    ensures forall tokens :: |tokens| == n + 1 && Walk(serve, tokens) ==>
                               Gathered(serve, n + 1) == PagesOf(serve, tokens)
  {
    hide Gathered, PagesOf;
    forall tokens | |tokens| == n + 1 && Walk(serve, tokens)
      ensures Ends(serve, n) && Gathered(serve, n + 1) == PagesOf(serve, tokens)
    {
      WalkEnds(serve, tokens);
    }
    if Ends(serve, n) {
      var tokens := AskedIsWalk(serve, n);
      assert Walk(serve, tokens);
    }
  }

  lemma WalkEnds(serve: (nat, Option<string>) -> Page, tokens: seq<Option<string>>)
    requires Walk(serve, tokens)
    ensures Ends(serve, |tokens| - 1) && Gathered(serve, |tokens|) == PagesOf(serve, tokens)
  {
    forall k | 0 <= k < |tokens| ensures Asked(serve, k) == Some(tokens[k]) {
      WalkIsAsked(serve, tokens, k);
    }
    GatheredIsPages(serve, tokens);
  }

  lemma NeverComplete(serve: (nat, Option<string>) -> Page, n: nat)
    requires forall m :: 0 <= m < n ==> !Ends(serve, m)
    requires n >= MAX_LIST_PAGES || Asked(serve, n).None? || |Gathered(serve, n)| > MAX_LIST_KEYS
    ensures forall m: nat :: !Complete(serve, m)
  {
    forall m: nat ensures !Complete(serve, m) {
      if n <= m && m < MAX_LIST_PAGES {
        if Asked(serve, n).None? {
          WalkIsOver(serve, n, m);
        } else {
          GatheredGrows(serve, n, m + 1);
        }
      }
    }
  }

  /** The whole listing: it succeeds exactly when the pages lead to a last one within
      the bounds, and then holds every item of every page once, in key order. */
  method List(serve: (nat, Option<string>) -> Page) returns (r: Option<seq<Item>>, ghost last: nat)
    ensures r.Some? ==>
              Complete(serve, last) && multiset(r.value) == multiset(Gathered(serve, last + 1)) && ByKey(r.value)
    ensures r.None? ==> forall n: nat :: !Complete(serve, n)
  {
    var names: seq<Item> := [];
    var token: Option<string> := None;
    var pages := 0;
    last := 0;
    while true
      invariant 0 <= pages <= MAX_LIST_PAGES && Asked(serve, pages) == Some(token)
      invariant names == Gathered(serve, pages) && |names| <= MAX_LIST_KEYS
      invariant forall m :: 0 <= m < pages ==> !Ends(serve, m)
      decreases MAX_LIST_PAGES - pages
    {
      if pages == MAX_LIST_PAGES {
        NeverComplete(serve, pages);
        return None, last;
      }
      var page := serve(pages, token);
      if page.Unusable? {
        NeverComplete(serve, pages + 1);
        return None, last;
      }
      names := names + page.items;
      if |names| > MAX_LIST_KEYS {
        TooMany(serve, pages);
        return None, last;
      }
      if page.next.None? {
        last := pages;
        SortingOrders(names);
        return Some(SortedByKey(names)), last;
      }
      if page.next == token {
        NeverComplete(serve, pages + 1);
        return None, last;
      }
      token, pages := page.next, pages + 1;
    }
  }

  lemma TooMany(serve: (nat, Option<string>) -> Page, n: nat)
    requires |Gathered(serve, n + 1)| > MAX_LIST_KEYS && forall m :: 0 <= m < n ==> !Ends(serve, m)
    ensures forall m: nat :: !Complete(serve, m)
  {
    forall m: nat ensures !Complete(serve, m) {
      if n <= m {
        GatheredGrows(serve, n + 1, m + 1);
      }
    }
  }
}
