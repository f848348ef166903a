/** Targets: how they are built from an endpoint name and options, and how `dispatch` classifies them. */
module Targets {
  import opened Words

  const PREFIX := "/api/v3/"

  /** The options, with '&' between them. */
  function Join(opts: seq<string>): string
    requires opts != []
  {
    if |opts| == 1 then opts[0] else opts[0] + "&" + Join(opts[1..])
  }

  lemma {:induction false} JoinSnoc(opts: seq<string>, last: string)
    requires opts != []
    ensures Join(opts + [last]) == Join(opts) + "&" + last
  {
    if |opts| == 1 {
      assert (opts + [last])[1..] == [last];
    } else {
      assert (opts + [last])[1..] == opts[1..] + [last];
      JoinSnoc(opts[1..], last);
    }
  }

  /** `GetTargetOpts` is only instantiated with at least one option: it reads the first unchecked. */
  method GetTargetOpts(opts: seq<string>) returns (r: string)
    requires opts != []
    ensures r == "?" + Join(opts)
  {
    r := "?" + opts[0];
    for i := 1 to |opts|
      invariant r == "?" + Join(opts[..i])
    {
      assert opts[..i + 1] == opts[..i] + [opts[i]];
      JoinSnoc(opts[..i], opts[i]);
      r := r + "&" + opts[i];
    }
    assert opts[..|opts|] == opts;
  }

  function Query(opts: seq<string>): string {
    if opts == [] then "" else "?" + Join(opts)
  }

  /** What `SubscribeEndpoint` stores. */
  function Target(name: string, opts: seq<string>): string {
    PREFIX + name + Query(opts)
  }

  // ---------------------------------------------------------------- construction is injective

  function Index(s: string, c: char): (i: nat)
    ensures i <= |s| && c !in s[..i]
    ensures i < |s| ==> s[i] == c
  {
    if s == [] || s[0] == c then 0 else 1 + Index(s[1..], c)
  }

  lemma {:induction false} IndexAfter(front: string, back: string, c: char)
    requires c !in front && (back == [] || back[0] == c)
    ensures Index(front + back, c) == |front|
  {
    if front == [] {
      assert front + back == back;
    } else {
      assert (front + back)[1..] == front[1..] + back;
      IndexAfter(front[1..], back, c);
    }
  }

  function Split(s: string): (parts: seq<string>)
    ensures parts != []
    decreases |s|
  {
    var i := Index(s, '&');
    if i == |s| then [s] else [s[..i]] + Split(s[i + 1..])
  }

  /** Name and options, read back from a target. */
  function Parse(target: string): (string, seq<string>)
    requires |PREFIX| <= |target|
  {
    var rest := target[|PREFIX|..];
    var i := Index(rest, '?');
    (rest[..i], if i == |rest| then [] else Split(rest[i + 1..]))
  }

  ghost predicate Free(opts: seq<string>, c: char) {
    forall k :: 0 <= k < |opts| ==> c !in opts[k]
  }

  lemma SplitPlain(front: string)
    requires '&' !in front
    ensures Split(front) == [front]
  {
    IndexAfter(front, "", '&');
    assert front + "" == front;
  }

  lemma SplitOnce(front: string, back: string)
    requires '&' !in front
    ensures Split(front + "&" + back) == [front] + Split(back)
  {
    var s := front + ("&" + back);
    IndexAfter(front, "&" + back, '&');
    hide Index;
    assert s[..|front|] == front && s[|front| + 1..] == back;
    assert s == front + "&" + back;
  }

  lemma {:induction false} SplitJoin(opts: seq<string>)
    requires opts != [] && Free(opts, '&')
    ensures Split(Join(opts)) == opts
  {
    hide Index, Split;
    if |opts| == 1 {
      SplitPlain(opts[0]);
    } else {
      SplitOnce(opts[0], Join(opts[1..]));
      SplitJoin(opts[1..]);
    }
  }

  lemma {:induction false} SplitFree(s: string)
    ensures Free(Split(s), '&')
    decreases |s|
  {
    var i := Index(s, '&');
    if i < |s| {
      SplitFree(s[i + 1..]);
    }
  }

  lemma {:induction false} JoinSplit(s: string)
    ensures Join(Split(s)) == s
    decreases |s|
  {
    var i := Index(s, '&');
    if i < |s| {
      JoinSplit(s[i + 1..]);
      assert Split(s)[1..] == Split(s[i + 1..]);
      assert s == s[..i] + "&" + s[i + 1..];
    }
  }

  lemma QueryOfSplit(s: string)
    ensures Query(Split(s)) == "?" + s && Free(Split(s), '&')
  {
    JoinSplit(s);
    SplitFree(s);
  }

  lemma ParseParts(name: string, query: string)
    requires '?' !in name && (query == [] || query[0] == '?')
    ensures |PREFIX| <= |PREFIX + name + query|
    ensures Parse(PREFIX + name + query) == (name, if query == [] then [] else Split(query[1..]))
  {
    var target := PREFIX + name + query;
    var rest := target[|PREFIX|..];
    assert rest == name + query;
    IndexAfter(name, query, '?');
    hide Index, Split;
    assert rest[..|name|] == name;
    if query != [] {
      assert rest[|name| + 1..] == query[1..];
    }
  }

  /** Whatever follows the prefix, what is read back is free of the separators and builds the same
      target again. */
  lemma ParseBuilds(target: string)
    requires PREFIX <= target
    ensures var (name, opts) := Parse(target);
            '?' !in name && Free(opts, '&') && Target(name, opts) == target
  {
    var rest := target[|PREFIX|..];
    var i := Index(rest, '?');
    var name, query := rest[..i], rest[i..];
    assert target == PREFIX + name + query;
    hide Index, Parse, Split, Join;
    ParseParts(name, query);
    if query != [] {
      QueryOfSplit(query[1..]);
      assert "?" + query[1..] == query;
    }
  }

  lemma RestrictedReadsBack(name: string, opts: seq<string>)
    requires '?' !in name && Free(opts, '&')
    ensures Parse(Target(name, opts)) == (name, opts)
  {
    hide Parse, Split;
    ParseParts(name, Query(opts));
    if opts != [] {
      SplitJoin(opts);
      assert ("?" + Join(opts))[1..] == Join(opts);
    }
  }

  /** The target gives name and options back exactly when the name is '?'-free and the options are
      '&'-free. */
  lemma TargetReadsBack(name: string, opts: seq<string>)
    ensures Parse(Target(name, opts)) == (name, opts) <==> '?' !in name && Free(opts, '&')
  {
    if '?' !in name && Free(opts, '&') {
      RestrictedReadsBack(name, opts);
    } else {
      PrefixFirst(name, opts);
      ParseBuilds(Target(name, opts));
    }
  }

  lemma PrefixFirst(name: string, opts: seq<string>)
    ensures PREFIX <= Target(name, opts)
  {
    assert Target(name, opts) == PREFIX + (name + Query(opts));
  }

  /** So different pairs, the one without options included, give different targets. */
  lemma TargetInjective(name: string, opts: seq<string>, name': string, opts': seq<string>)
    requires '?' !in name && Free(opts, '&') && '?' !in name' && Free(opts', '&')
    requires Target(name, opts) == Target(name', opts')
    ensures name == name' && opts == opts'
  {
    RestrictedReadsBack(name, opts);
    RestrictedReadsBack(name', opts');
  }

  /** And every other pair has the target of a different pair within the restrictions. */
  lemma TargetsCollideOtherwise(name: string, opts: seq<string>)
    requires '?' in name || !Free(opts, '&')
    ensures exists name', opts' ::
              && Target(name', opts') == Target(name, opts) && (name', opts') != (name, opts)
              && '?' !in name' && Free(opts', '&')
  {
    PrefixFirst(name, opts);
    ParseBuilds(Target(name, opts));
    var (name', opts') := Parse(Target(name, opts));
    assert Target(name', opts') == Target(name, opts);
  }

  // ---------------------------------------------------------------- routing

  datatype Route = Ping | Info | Time | Trade | Other

  predicate OccursAt(s: string, pattern: string, i: nat) {
    i + |pattern| <= |s| && s[i..i + |pattern|] == pattern
  }

  /** `find(pattern) != npos`. */
  predicate Contains(s: string, pattern: string) {
    exists i :: 0 <= i <= |s| && OccursAt(s, pattern, i)
  }

  function Endpoint(r: Route): string
    requires !r.Other?
  {
    match r
    case Ping => "ping"
    case Info => "exchangeInfo"
    case Time => "time"
    case Trade => "trades"
  }

  /** `dispatch`: which decoder the searches, in their order, select. */
  function Dispatch(target: string): Route {
    if Contains(target, "/api/v3/ping") then Ping
    else if Contains(target, "/api/v3/exchangeInfo") then Info
    else if Contains(target, "/api/v3/time") then Time
    else if Contains(target, "/api/v3/trades") then Trade
    else Other
  }

  /** The order of the searches. */
  function Place(r: Route): nat {
    match r
    case Ping => 0
    case Info => 1
    case Time => 2
    case Trade => 3
    case Other => 4
  }

  ghost predicate Found(target: string, r: Route) {
    !r.Other? && Contains(target, PREFIX + Endpoint(r))
  }

  lemma DispatchIsFirst(target: string)
    ensures Dispatch(target).Other? || Found(target, Dispatch(target))
    ensures forall r :: Place(r) < Place(Dispatch(target)) ==> !Found(target, r)
  {
    assert PREFIX + Endpoint(Ping) == "/api/v3/ping" && PREFIX + Endpoint(Info) == "/api/v3/exchangeInfo"
        && PREFIX + Endpoint(Time) == "/api/v3/time" && PREFIX + Endpoint(Trade) == "/api/v3/trades";
    hide Contains;
  }

  /** The route the endpoint name alone selects. */
  function ByName(name: string): Route {
    if Endpoint(Ping) <= name then Ping
    else if Endpoint(Info) <= name then Info
    else if Endpoint(Time) <= name then Time
    else if Endpoint(Trade) <= name then Trade
    else Other
  }

  lemma OnlyOneEndpoint(name: string, r: Route)
    requires !r.Other? && Endpoint(r) <= name
    ensures ByName(name) == r
  {
    assert name[0] == Endpoint(r)[0];
    if r.Time? || r.Trade? {
      assert name[1] == Endpoint(r)[1];
    }
  }

  lemma NotInQuery(name: string, opts: seq<string>, word: string)
    requires '?' !in word
    ensures word <= name + Query(opts) <==> word <= name
  {
    var s := name + Query(opts);
    assert |name| < |s| ==> s[|name|] == '?';
    assert word <= s ==> forall k :: 0 <= k < |word| ==> s[k] != '?';
    if word <= s && |word| <= |name| {
      assert name[..|word|] == s[..|word|];
    }
    if word <= name {
      assert s[..|word|] == name[..|word|];
    }
  }

  // ---------------------------------------------------------------- where a search can succeed

  /** An occurrence that is not at the start. */
  ghost predicate Inner(s: string, pattern: string) {
    exists i :: 0 < i <= |s| && OccursAt(s, pattern, i)
  }

  lemma AfterPrefix(tail: string, word: string)
    ensures OccursAt(PREFIX + tail, PREFIX + word, 0) <==> word <= tail
  {
    if |word| <= |tail| {
      var head := tail[..|word|];
      assert (PREFIX + tail)[0..|PREFIX + word|] == PREFIX + head;
      assert (PREFIX + head)[|PREFIX|..] == head && (PREFIX + word)[|PREFIX|..] == word;
    }
  }

  lemma AtStart(name: string, opts: seq<string>, word: string)
    requires '?' !in word
    ensures OccursAt(Target(name, opts), PREFIX + word, 0) <==> word <= name
  {
    assert Target(name, opts) == PREFIX + (name + Query(opts));
    NotInQuery(name, opts, word);
    AfterPrefix(name + Query(opts), word);
  }

  /** For every target: a search succeeds exactly when the endpoint name begins with the searched one,
      or the searched text occurs again further on. */
  lemma SearchIsPrefixTest(name: string, opts: seq<string>, word: string)
    requires '?' !in word
    ensures Contains(Target(name, opts), PREFIX + word) <==> word <= name || Inner(Target(name, opts), PREFIX + word)
  {
    AtStart(name, opts, word);
    hide OccursAt, Target;
  }

  lemma OccursShifted(front: string, s: string, pattern: string, i: nat)
    ensures OccursAt(front + s, pattern, |front| + i) <==> OccursAt(s, pattern, i)
  {
    var n := |pattern|;
    if i + n <= |s| {
      assert (front + s)[|front| + i..|front| + i + n] == s[i..i + n];
    }
  }

  lemma OccursWithin(front: string, rest: string, pattern: string, i: nat)
    requires i + |pattern| <= |front|
    ensures OccursAt(front + rest, pattern, i) <==> OccursAt(front, pattern, i)
  {
    assert (front + rest)[i..i + |pattern|] == front[i..i + |pattern|];
  }

  lemma OccurrenceAvoids(s: string, pattern: string, i: nat, at: nat)
    requires OccursAt(s, pattern, i) && at < |s| && s[at] !in pattern
    ensures at < i || i + |pattern| <= at
  {
    assert forall k :: 0 <= k < |pattern| ==> s[i + k] == pattern[k];
  }

  lemma SeparatorJoins(front: string, c: char, back: string, pattern: string)
    requires Contains(front, pattern) || Contains(back, pattern)
    ensures Contains(front + [c] + back, pattern)
  {
    var s := front + [c] + back;
    assert s == front + ([c] + back);
    hide OccursAt;
    if Contains(front, pattern) {
      var i :| 0 <= i <= |front| && OccursAt(front, pattern, i);
      OccursFits(front, pattern, i);
      OccursWithin(front, [c] + back, pattern, i);
    } else {
      var i :| 0 <= i <= |back| && OccursAt(back, pattern, i);
      OccursShifted(front + [c], back, pattern, i);
      assert OccursAt(s, pattern, |front| + 1 + i);
    }
  }

  lemma OccursFits(s: string, pattern: string, i: nat)
    requires OccursAt(s, pattern, i)
    ensures i + |pattern| <= |s|
  {
  }

  /** A text without the separator lies on one side of it. */
  lemma SeparatorDivides(front: string, c: char, back: string, pattern: string)
    requires pattern != [] && c !in pattern
    ensures Contains(front + [c] + back, pattern) <==> Contains(front, pattern) || Contains(back, pattern)
  {
    var s := front + [c] + back;
    if Contains(front, pattern) || Contains(back, pattern) {
      SeparatorJoins(front, c, back, pattern);
    } else if Contains(s, pattern) {
      var i :| 0 <= i <= |s| && OccursAt(s, pattern, i);
      OccurrenceAvoids(s, pattern, i, |front|);
      hide OccursAt;
      if i <= |front| {
        assert s == front + ([c] + back);
        OccursWithin(front, [c] + back, pattern, i);
      } else {
        OccursShifted(front + [c], back, pattern, i - |front| - 1);
      }
    }
  }

  ghost predicate InOption(opts: seq<string>, pattern: string) {
    exists k :: 0 <= k < |opts| && Contains(opts[k], pattern)
  }

  lemma {:induction false} InJoin(opts: seq<string>, pattern: string)
    requires opts != [] && pattern != [] && '&' !in pattern
    ensures Contains(Join(opts), pattern) <==> InOption(opts, pattern)
  {
    hide Contains;
    if |opts| > 1 {
      SeparatorDivides(opts[0], '&', Join(opts[1..]), pattern);
      InJoin(opts[1..], pattern);
      assert InOption(opts, pattern) <==> Contains(opts[0], pattern) || InOption(opts[1..], pattern) by {
        forall k | 0 <= k < |opts[1..]|
          ensures opts[1..][k] == opts[k + 1]
        {
        }
        if InOption(opts, pattern) {
          var k :| 0 <= k < |opts| && Contains(opts[k], pattern);
          assert k > 0 ==> opts[1..][k - 1] == opts[k];
        }
      }
    }
  }

  /** The slash in the middle of the prefix is not followed as the first one is. */
  lemma NotInsidePrefix(tail: string, word: string, i: nat)
    requires 0 < i && OccursAt(PREFIX + tail, PREFIX + word, i)
    ensures i >= 7
  {
    var t, p := PREFIX + tail, PREFIX + word;
    assert t[i] == p[0] && t[i + 1] == p[1];
  }

  /** Only the last character of the prefix can begin another occurrence of it. */
  lemma InnerFromSlash(tail: string, word: string)
    ensures Inner(PREFIX + tail, PREFIX + word) <==> Contains("/" + tail, PREFIX + word)
  {
    var t, u, p := PREFIX + tail, "/" + tail, PREFIX + word;
    assert t == "/api/v3" + u;
    if Inner(t, p) {
      var i :| 0 < i <= |t| && OccursAt(t, p, i);
      NotInsidePrefix(tail, word, i);
      OccursShifted("/api/v3", u, p, i - 7);
      assert OccursAt(u, p, i - 7);
    }
    if Contains(u, p) {
      var i :| 0 <= i <= |u| && OccursAt(u, p, i);
      OccursShifted("/api/v3", u, p, i);
      assert OccursAt(t, p, i + 7);
    }
    hide OccursAt;
  }

  /** The prefixed word occurs in the endpoint name, behind a slash, or in an option. */
  ghost predicate Smuggled(name: string, opts: seq<string>, word: string) {
    Contains("/" + name, PREFIX + word) || InOption(opts, PREFIX + word)
  }

  /** So what a caller passes tells whether there is another occurrence. */
  lemma InnerIsSmuggled(name: string, opts: seq<string>, word: string)
    requires '?' !in word && '&' !in word
    ensures Inner(Target(name, opts), PREFIX + word) <==> Smuggled(name, opts, word)
  {
    var tail := name + Query(opts);
    assert Target(name, opts) == PREFIX + tail;
    InnerFromSlash(tail, word);
    hide Contains, Inner;
    if opts == [] {
      assert tail == name;
    } else {
      assert "/" + tail == ("/" + name) + ['?'] + Join(opts);
      SeparatorDivides("/" + name, '?', Join(opts), PREFIX + word);
      InJoin(opts, PREFIX + word);
    }
  }

  // ---------------------------------------------------------------- routing by name

  lemma EndpointsPlain(r: Route)
    requires !r.Other?
    ensures '?' !in Endpoint(r) && '&' !in Endpoint(r)
  {
  }

  /** Which searches succeed, in terms of what the caller passes. */
  lemma FoundExactly(name: string, opts: seq<string>, r: Route)
    requires !r.Other?
    ensures Found(Target(name, opts), r) <==> Endpoint(r) <= name || Smuggled(name, opts, Endpoint(r))
  {
    EndpointsPlain(r);
    SearchIsPrefixTest(name, opts, Endpoint(r));
    InnerIsSmuggled(name, opts, Endpoint(r));
  }

  lemma ByNameIsFirst(name: string)
    ensures ByName(name).Other? || Endpoint(ByName(name)) <= name
    ensures forall r :: Place(r) < Place(ByName(name)) ==> !(Endpoint(r) <= name)
  {
  }

  /** For every name and every list of options, `dispatch` goes by the endpoint name exactly when no
      endpoint searched before it is smuggled in. */
  lemma RoutingFollowsName(name: string, opts: seq<string>)
    ensures Dispatch(Target(name, opts)) == ByName(name) <==>
            forall r :: Place(r) < Place(ByName(name)) ==> !Smuggled(name, opts, Endpoint(r))
  {
    var t, d, b := Target(name, opts), Dispatch(Target(name, opts)), ByName(name);
    DispatchIsFirst(t);
    ByNameIsFirst(name);
    hide Target, Dispatch, ByName, Endpoint, Smuggled, Found;
    forall r: Route | !r.Other?
      ensures Found(t, r) <==> Endpoint(r) <= name || Smuggled(name, opts, Endpoint(r))
    {
      FoundExactly(name, opts, r);
    }
    if Place(d) < Place(b) {
      assert Found(t, d);
    } else if Place(b) < Place(d) {
      assert false;
    }
  }

  /** An option that contains an endpoint keeps `dispatch` from any endpoint searched later: with
      `x=/api/v3/ping` every target goes to the ping decoder. */
  lemma OptionCanRedirect(name: string, opts: seq<string>, k: nat, r: Route)
    requires k < |opts| && !r.Other? && Contains(opts[k], PREFIX + Endpoint(r))
    ensures Place(Dispatch(Target(name, opts))) <= Place(r)
  {
    assert InOption(opts, PREFIX + Endpoint(r));
    FoundExactly(name, opts, r);
    DispatchIsFirst(Target(name, opts));
  }

  // ---------------------------------------------------------------- the order of the searches

  const BRANCHES := [Ping, Info, Time, Trade]

  /** `dispatch` with its four branches in another order. */
  ghost predicate IsOrder(order: seq<Route>) {
    multiset(order) == multiset(BRANCHES)
  }

  /** The first of `order` whose search succeeds. */
  ghost function DispatchIn(order: seq<Route>, target: string): Route {
    if order == [] then Other
    else if Found(target, order[0]) then order[0]
    else DispatchIn(order[1..], target)
  }

  lemma DispatchInOrder(target: string)
    ensures DispatchIn(BRANCHES, target) == Dispatch(target)
  {
    DispatchIsFirst(target);
    hide Dispatch, Found;
    assert BRANCHES[1..] == [Info, Time, Trade] && BRANCHES[1..][1..] == [Time, Trade];
    assert [Time, Trade][1..] == [Trade] && [Trade][1..] == [];
    assert DispatchIn([Trade], target) == if Found(target, Trade) then Trade else Other;
    assert DispatchIn([Time, Trade], target) == if Found(target, Time) then Time else DispatchIn([Trade], target);
  }

  ghost predicate AnyOrder(target: string) {
    forall order :: IsOrder(order) ==> DispatchIn(order, target) == Dispatch(target)
  }

  lemma {:induction false} DispatchInFinds(order: seq<Route>, target: string)
    ensures var r := DispatchIn(order, target); r.Other? || (r in order && Found(target, r))
    ensures forall r :: r in order && Found(target, r) ==> !DispatchIn(order, target).Other?
  {
    if order != [] {
      DispatchInFinds(order[1..], target);
    }
  }

  lemma OrderMembers(order: seq<Route>, r: Route)
    requires IsOrder(order)
    ensures r in order <==> !r.Other?
  {
    assert r in order <==> r in multiset(order);
  }

  /** Every branch is the first in some order. */
  lemma OrderFrom(r: Route) returns (order: seq<Route>)
    requires !r.Other?
    ensures IsOrder(order) && order[0] == r
  {
    order := match r
      case Ping => BRANCHES
      case Info => [Info, Ping, Time, Trade]
      case Time => [Time, Ping, Info, Trade]
      case Trade => [Trade, Ping, Info, Time];
  }

  lemma OneFoundAnyOrder(target: string, order: seq<Route>)
    requires IsOrder(order) && forall r, r' :: Found(target, r) && Found(target, r') ==> r == r'
    ensures DispatchIn(order, target) == Dispatch(target)
  {
    DispatchInFinds(order, target);
    DispatchInFinds(BRANCHES, target);
    DispatchInOrder(target);
    hide DispatchIn, Dispatch;
    forall r: Route
      ensures r in order <==> r in BRANCHES
    {
      OrderMembers(order, r);
      OrderMembers(BRANCHES, r);
    }
  }

  /** Whether the search for endpoint `r` succeeds, in terms of what the caller passes. */
  ghost predicate Matches(name: string, opts: seq<string>, r: Route) {
    !r.Other? && (Endpoint(r) <= name || Smuggled(name, opts, Endpoint(r)))
  }

  /** For every name and options: every order of the four branches selects the same decoder exactly when
      at most one endpoint begins the name, occurs in it behind a slash or occurs in an option. */
  lemma OrderMattersExactly(name: string, opts: seq<string>)
    ensures AnyOrder(Target(name, opts)) <==>
            forall r, r' :: Matches(name, opts, r) && Matches(name, opts, r') ==> r == r'
  {
    var t := Target(name, opts);
    forall r: Route
      ensures Found(t, r) <==> Matches(name, opts, r)
    {
      if !r.Other? {
        FoundExactly(name, opts, r);
      }
    }
    hide Found, Matches, Target, Dispatch;
    if AnyOrder(t) {
      forall r, r' | Found(t, r) && Found(t, r')
        ensures r == r'
      {
        FoundIsEndpoint(t, r);
        FoundIsEndpoint(t, r');
        var one := OrderFrom(r);
        var other := OrderFrom(r');
        assert DispatchIn(one, t) == r && DispatchIn(other, t) == r';
      }
    } else if forall r, r' :: Found(t, r) && Found(t, r') ==> r == r' {
      forall order | IsOrder(order)
        ensures DispatchIn(order, t) == Dispatch(t)
      {
        OneFoundAnyOrder(t, order);
      }
    }
  }

  lemma FoundIsEndpoint(target: string, r: Route)
    requires Found(target, r)
    ensures !r.Other?
  {
  }

  // ---------------------------------------------------------------- one prefix

  ghost predicate PrefixOnlyAtStart(target: string) {
    forall i: nat :: OccursAt(target, PREFIX, i) ==> i == 0
  }

  lemma OnePrefixNoInner(target: string, word: string)
    requires PrefixOnlyAtStart(target)
    ensures !Inner(target, PREFIX + word)
  {
    if Inner(target, PREFIX + word) {
      var i :| 0 < i <= |target| && OccursAt(target, PREFIX + word, i);
      assert target[i..i + |PREFIX + word|][..|PREFIX|] == target[i..i + |PREFIX|];
      assert OccursAt(target, PREFIX, i);
    }
  }

  /** In particular a target with the prefix only at its start is routed by its name, in any order of
      the branches. */
  lemma OnePrefixRoutesByName(name: string, opts: seq<string>)
    requires PrefixOnlyAtStart(Target(name, opts))
    ensures Dispatch(Target(name, opts)) == ByName(name)
    ensures AnyOrder(Target(name, opts))
  {
    forall r: Route | !r.Other?
      ensures !Smuggled(name, opts, Endpoint(r))
      ensures Matches(name, opts, r) ==> ByName(name) == r
    {
      EndpointsPlain(r);
      OnePrefixNoInner(Target(name, opts), Endpoint(r));
      InnerIsSmuggled(name, opts, Endpoint(r));
      if Endpoint(r) <= name {
        OnlyOneEndpoint(name, r);
      }
    }
    RoutingFollowsName(name, opts);
    OrderMattersExactly(name, opts);
  }

  /** As every target is that is made without '/'. */
  lemma SlashFreeRoutesByName(name: string, opts: seq<string>)
    requires '/' !in name && Free(opts, '/')
    ensures Dispatch(Target(name, opts)) == ByName(name)
    ensures AnyOrder(Target(name, opts))
  {
    SlashFreeHasOnePrefix(name, opts);
    OnePrefixRoutesByName(name, opts);
  }

  /** A name and options without '/' leave no other place for the prefix. */
  lemma SlashFreeHasOnePrefix(name: string, opts: seq<string>)
    requires '/' !in name && Free(opts, '/')
    ensures PrefixOnlyAtStart(Target(name, opts))
  {
    var t := Target(name, opts);
    if opts != [] {
      JoinSlashFree(opts);
    }
    assert forall j :: 8 <= j < |t| ==> t[j] == (name + Query(opts))[j - 8];
    forall i: nat | OccursAt(t, PREFIX, i)
      ensures i == 0
    {
      var at := t[i..i + 8];
      assert at[0] == t[i] && at[1] == t[i + 1] && at[4] == t[i + 4];
    }
  }

  lemma {:induction false} JoinSlashFree(opts: seq<string>)
    requires opts != [] && Free(opts, '/')
    ensures '/' !in Join(opts)
  {
    if |opts| > 1 {
      JoinSlashFree(opts[1..]);
    }
  }
}
