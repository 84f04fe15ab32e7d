// Stepping through the search list, under the limit on look-ups that dig
// requeues by itself (bin/dig/dighost.c).
module Search {
  import opened Base

  const LOOKUP_LIMIT: nat := 64

  // What dns_name_fromstring makes of a text: whether the name is absolute, and
  // its number of labels.
  datatype Parsed = Parsed(absolute: bool, labels: nat)

  // The settings of the program: the search list, whether it is used, ndots,
  // and how texts are parsed (None when the text is not a name).
  datatype Config = Config(search: seq<string>, useSearch: bool, ndots: nat, parse: string -> Option<Parsed>)

  // count_dots, which does not know about escapes
  function CountDots(s: string): nat {
    if s == "" then 0 else (if s[0] == '.' then 1 else 0) + CountDots(s[1..])
  }

  lemma {:induction false} DotsCounted(s: string)
    ensures CountDots(s) == multiset(s)['.']
  {
    if s != "" {
      DotsCounted(s[1..]);
      assert s == [s[0]] + s[1..];
    }
  }

  method CountDotsLoop(s: string) returns (i: nat)
    ensures i == CountDots(s) == multiset(s)['.']
  {
    i := 0;
    var p := 0;
    while p < |s|
      invariant p <= |s| && i + CountDots(s[p..]) == CountDots(s)
    {
      if s[p] == '.' {
        i := i + 1;
      }
      p := p + 1;
    }
    DotsCounted(s);
  }

  // The fields of a look-up that take part; origin is a place in the search
  // list.
  datatype Lookup = Lookup(text: string, origin: Option<nat>, needSearch: bool, doneAsIs: bool, newSearch: bool)

  ghost predicate Proper(c: Config, l: Lookup) {
    l.origin.Some? ==> l.origin.value < |c.search|
  }

  // ISC_LIST_HEAD and ISC_LIST_NEXT on the search list
  function Head(c: Config): Option<nat> {
    if c.search == [] then None else Some(0)
  }

  function NextOf(c: Config, o: nat): Option<nat> {
    if o + 1 < |c.search| then Some(o + 1) else None
  }

  // ------------------------------------------------------------ operations

  // What setup_lookup does to the look-up itself.
  function SetUp(c: Config, l: Lookup): Lookup {
    if !l.newSearch then l
    else if CountDots(l.text) >= c.ndots || !c.useSearch then
      l.(origin := None, doneAsIs := true, needSearch := c.useSearch)
    else if l.origin.None? then
      l.(origin := Head(c), needSearch := false)
    else l
  }

  // What next_origin makes of a look-up; None when there is nothing left.
  function NextOrigin(c: Config, l: Lookup): (r: Option<Lookup>)
    ensures r.Some? ==> !r.value.newSearch && r.value.text == l.text
    ensures r.Some? && Proper(c, l) ==> Proper(c, r.value)
  {
    if !c.useSearch then None
    else if c.parse(l.text).Some? && (c.parse(l.text).value.absolute || c.parse(l.text).value.labels > c.ndots) then None
    else if l.origin.None? && !l.needSearch then None
    else if l.origin.None? then Some(Clone(l).(origin := Head(c), needSearch := false))
    else if NextOf(c, l.origin.value).None? && l.doneAsIs then None
    else Some(Clone(l).(origin := NextOf(c, l.origin.value)))
  }

  // clone_lookup starts from make_empty_lookup and does not copy new_search.
  function Clone(l: Lookup): (r: Lookup)
    ensures !r.newSearch
  {
    Lookup(l.text, l.origin, l.needSearch, l.doneAsIs, false)
  }

  // The program's global state: the counter and the queue of look-ups.
  class Dig {
    var counter: nat
    var queue: seq<Lookup>
    const config: Config

    constructor (config: Config)
      ensures this.config == config && counter == 0 && queue == []
    {
      this.config := config;
      counter, queue := 0, [];
    }

    // setup_lookup
    method SetupLookup(l: Lookup) returns (l': Lookup)
      modifies this`counter
      ensures l' == SetUp(config, l) && counter == if l.newSearch then 0 else old(counter)
    {
      l' := l;
      if l.newSearch {
        counter := 0;
      }
      if l.newSearch {
        var dots := CountDotsLoop(l.text);
        if dots >= config.ndots || !config.useSearch {
          l' := l'.(origin := None);
          l' := l'.(doneAsIs := true);
          l' := l'.(needSearch := config.useSearch);
        } else if l'.origin.None? && config.useSearch {
          l' := l'.(origin := Head(config));
          l' := l'.(needSearch := false);
        }
      }
    }

    // The protocol's state shows the same counter and queue.
    ghost predicate Shows(w: World)
      reads this
    {
      !w.dead && w.counter == counter && w.queue == queue
    }

    // A search that the user asks for.
    method Add(text: string, ghost w: World)
      requires Shows(w)
      modifies this`queue
      ensures Shows(Next(config, w, User(text)))
    {
      queue := queue + [NewSearch(text)];
    }

    // The next look-up leaves the queue and is set up.
    method StartNext(ghost w: World) returns (l: Lookup)
      requires Shows(w) && queue != []
      modifies this
      ensures Shows(Next(config, w, Start)) && Next(config, w, Start).current == Some(l)
      ensures l == SetUp(config, old(queue)[0]) && queue == old(queue)[1..]
      ensures counter == if old(queue)[0].newSearch then 0 else old(counter)
    {
      l := queue[0];
      queue := queue[1..];
      l := SetupLookup(l);
    }

    // requeue_lookup; not ok stands for the fatal error "too many lookups"
    method RequeueLookup(l: Lookup) returns (ok: bool)
      modifies this
      ensures counter == old(counter) + 1 && (ok <==> counter <= LOOKUP_LIMIT)
      ensures queue == if ok then [Clone(l)] + old(queue) else old(queue)
    {
      counter := counter + 1;
      ok := counter <= LOOKUP_LIMIT;
      if ok {
        queue := [Clone(l)] + queue;
      }
    }

    // next_origin
    method TryNextOrigin(l: Lookup, ghost w: World) returns (fatal: bool, more: bool)
      requires Shows(w) && w.current == Some(l)
      modifies this
      ensures var next := NextOrigin(config, l);
              if next.None? then !fatal && !more && counter == old(counter) && queue == old(queue)
              else
                && counter == old(counter) + 1 && (fatal <==> counter > LOOKUP_LIMIT)
                && more && queue == if fatal then old(queue) else [next.value] + old(queue)
      ensures more ==> var w' := Next(config, w, Requeue(NextOrigin(config, l).value, false));
                       w'.dead == fatal && (!fatal ==> Shows(w'))
    {
      fatal, more := false, false;
      if !config.useSearch {
        return;
      }
      var p := config.parse(l.text);
      if p.Some? && (p.value.absolute || p.value.labels > config.ndots) {
        return;
      }
      if l.origin.None? && !l.needSearch {
        return;
      }
      var ok;
      if l.origin.None? && l.needSearch {
        more := true;
        ok := RequeueLookup(l);
        if ok {
          queue := queue[0 := queue[0].(origin := Head(config))];
          queue := queue[0 := queue[0].(needSearch := false)];
        }
      } else {
        var search := NextOf(config, l.origin.value);
        if search.None? && l.doneAsIs {
          return;
        }
        more := true;
        ok := RequeueLookup(l);
        if ok {
          queue := queue[0 := queue[0].(origin := search)];
        }
      }
      fatal := !ok;
    }
  }

  // --------------------------------------------- a search without any answer

  datatype Ending = Exhausted | TooMany

  // The attempts made, by origin (None for the bare name), when every attempt is
  // answered with NXDOMAIN, and how the search ends; budget is how many more
  // look-ups may be requeued.
  function Attempts(c: Config, l: Lookup, budget: nat): (seq<Option<nat>>, Ending)
    decreases budget
  {
    if (l.origin.Some? || l.needSearch) && NextOrigin(c, l).Some? then
      if budget == 0 then ([l.origin], TooMany)
      else
        var (rest, e) := Attempts(c, NextOrigin(c, l).value, budget - 1);
        ([l.origin] + rest, e)
    else ([l.origin], Exhausted)
  }

  // The part of recv_done that takes an NXDOMAIN answer, from the start of a new
  // search until it ends.
  method AllNxdomain(dig: Dig, text: string) returns (attempts: seq<Option<nat>>, ending: Ending)
    modifies dig
    ensures (attempts, ending) == Attempts(dig.config, SetUp(dig.config, NewSearch(text)), LOOKUP_LIMIT)
  {
    var l := dig.SetupLookup(NewSearch(text));
    ghost var w := World(dig.counter, dig.queue, false, Some(l), 0, 1, 0);
    attempts := [];
    ghost var all := Attempts(dig.config, l, LOOKUP_LIMIT);
    ghost var rest := all;
    ConcatEmpty(rest.0);
    while true
      invariant dig.counter <= LOOKUP_LIMIT && rest == Attempts(dig.config, l, LOOKUP_LIMIT - dig.counter)
      invariant all == (attempts + rest.0, rest.1)
      invariant dig.Shows(w) && w.current == Some(l)
      decreases LOOKUP_LIMIT - dig.counter
    {
      ConcatAssoc(attempts, [l.origin], rest.0[1..]);
      attempts := attempts + [l.origin];
      if !(l.origin.Some? || l.needSearch) {
        return attempts, Exhausted;
      }
      var fatal, more := dig.TryNextOrigin(l, w);
      if fatal {
        return attempts, TooMany;
      }
      if !more {
        return attempts, Exhausted;
      }
      w := Next(dig.config, w, Requeue(NextOrigin(dig.config, l).value, false));
      ghost var w' := w;
      l := dig.StartNext(w);
      w := Next(dig.config, w', Start);
      rest := Attempts(dig.config, l, LOOKUP_LIMIT - dig.counter);
    }
  }

  // A new search as the user starts it.
  function NewSearch(text: string): Lookup {
    Lookup(text, None, false, false, true)
  }

  // A relative name without escaped dots has one label more than it has dots.
  ghost predicate Plain(c: Config, text: string) {
    c.parse(text) == Some(Parsed(false, CountDots(text) + 1))
  }

  function From(i: nat, n: nat): (s: seq<Option<nat>>)
    requires i <= n
    ensures |s| == n - i
    decreases n - i
  {
    if i == n then [] else [Some(i)] + From(i + 1, n)
  }

  // next_origin goes no further: the text is a name that is absolute or has more
  // than ndots labels.
  predicate Refused(c: Config, text: string) {
    c.parse(text).Some? && (c.parse(text).value.absolute || c.parse(text).value.labels > c.ndots)
  }

  // From origin i on, with the bare name last unless it has been tried.
  lemma {:induction false} AttemptsFrom(c: Config, l: Lookup, i: nat, budget: nat)
    requires c.useSearch && !Refused(c, l.text)
    requires i <= |c.search| && !l.needSearch && (l.doneAsIs ==> i < |c.search|)
    requires l.origin == if i < |c.search| then Some(i) else None
    ensures var rest := From(i, |c.search|) + if l.doneAsIs then [] else [None];
            Attempts(c, l, budget) ==
            if |rest| - 1 <= budget then (rest, Exhausted) else (From(i, i + budget + 1), TooMany)
    decreases budget
  {
    var n := |c.search|;
    var last: seq<Option<nat>> := if l.doneAsIs then [] else [None];
    if i == n {
      ConcatEmpty<Option<nat>>([None]);
    } else if i + 1 == n && l.doneAsIs {
      assert From(i, n) == [Some(i)] + From(n, n) == [Some(i)];
      ConcatEmpty(From(i, n));
    } else if budget == 0 {
      assert From(i, i + 1) == [Some(i)] + From(i + 1, i + 1) == [Some(i)];
    } else {
      AttemptsFrom(c, NextOrigin(c, l).value, i + 1, budget - 1);
      ConcatAssoc([Some(i)], From(i + 1, n), last);
    }
  }

  // All attempts of a search that never gets an answer. With too few dots the
  // origins come first, then the bare name; with enough the bare name, then the
  // origins; but nothing follows the first attempt when the name is refused.
  lemma SearchExactly(c: Config, text: string)
    ensures var n := |c.search|;
            Attempts(c, SetUp(c, NewSearch(text)), LOOKUP_LIMIT) ==
            if !c.useSearch then ([None], Exhausted)
            else if CountDots(text) < c.ndots then
              if Refused(c, text) then ([Head(c)], Exhausted)
              else if n <= LOOKUP_LIMIT then (From(0, n) + [None], Exhausted)
              else (From(0, LOOKUP_LIMIT + 1), TooMany)
            else
              if Refused(c, text) then ([None], Exhausted)
              else if n == 0 then ([None, None], Exhausted)
              else if n <= LOOKUP_LIMIT then ([None] + From(0, n), Exhausted)
              else ([None] + From(0, LOOKUP_LIMIT), TooMany)
  {
    var l := SetUp(c, NewSearch(text));
    if c.useSearch && !Refused(c, text) {
      if CountDots(text) < c.ndots {
        AttemptsFrom(c, l, 0, LOOKUP_LIMIT);
      } else {
        var next := NextOrigin(c, l).value;
        if c.search == [] {
          var bare: seq<Option<nat>> := [None];
          assert Attempts(c, next, LOOKUP_LIMIT - 1) == (bare, Exhausted);
          assert bare + bare == [None, None];
        } else {
          AttemptsFrom(c, next, 0, LOOKUP_LIMIT - 1);
          ConcatEmpty(From(0, |c.search|));
        }
      }
    }
  }

  // A relative name with fewer than ndots dots is tried with each origin of the
  // search list once, in order, then by itself, if the list is not longer than
  // the limit; with a longer list the search dies after LOOKUP_LIMIT + 1 origins
  // and the name is never tried by itself.
  lemma SearchOrder(c: Config, text: string)
    requires c.useSearch && CountDots(text) < c.ndots && Plain(c, text)
    ensures Attempts(c, SetUp(c, NewSearch(text)), LOOKUP_LIMIT) ==
            if |c.search| <= LOOKUP_LIMIT then (From(0, |c.search|) + [None], Exhausted)
            else (From(0, LOOKUP_LIMIT + 1), TooMany)
  {
    SearchExactly(c, text);
  }

  // A name with enough dots is tried by itself only: the search that SetUp
  // leaves for later (needSearch) is refused by NextOrigin, which counts labels.
  lemma EnoughDots(c: Config, text: string)
    requires CountDots(text) >= c.ndots && Plain(c, text)
    ensures Attempts(c, SetUp(c, NewSearch(text)), LOOKUP_LIMIT) == ([None], Exhausted)
  {
    SearchExactly(c, text);
  }

  // With enough dots the search list is used after the bare name, all of it if it
  // is not too long, if and only if the two counts disagree: because some dots
  // are escaped or the text is no name, there are not enough labels.
  lemma SearchAfterBare(c: Config, text: string)
    requires CountDots(text) >= c.ndots && c.useSearch && 0 < |c.search| <= LOOKUP_LIMIT
    ensures Attempts(c, SetUp(c, NewSearch(text)), LOOKUP_LIMIT) == ([None] + From(0, |c.search|), Exhausted) <==> !Refused(c, text)
  {
    SearchExactly(c, text);
  }

  // ------------------------------------------------------------- any run

  // What can happen: the user adds a search, a queued look-up is started, or an
  // answer to the current look-up makes the program requeue a changed copy of it
  // (as next_origin and the retries do; followup_lookup counts it twice).
  datatype Event = User(text: string) | Start | Requeue(copy: Lookup, twice: bool)

  // requeued counts the look-ups requeued since the last new search was started,
  // total all of them, and searches the new searches started.
  datatype World = World(counter: nat, queue: seq<Lookup>, dead: bool, current: Option<Lookup>,
                         requeued: nat, searches: nat, total: nat)

  const BEGINNING := World(0, [], false, None, 0, 0, 0)

  function Next(c: Config, w: World, e: Event): World {
    if w.dead then w
    else
      match e
      case User(text) => w.(queue := w.queue + [NewSearch(text)])
      case Start =>
        if w.queue == [] then w
        else
          var w' := w.(queue := w.queue[1..], current := Some(SetUp(c, w.queue[0])));
          if w.queue[0].newSearch then w'.(counter := 0, requeued := 0, searches := w.searches + 1) else w'
      case Requeue(l, twice) =>
        if w.current.None? then w
        else
          var counter := w.counter + if twice then 2 else 1;
          if counter > LOOKUP_LIMIT then w.(counter := counter, dead := true)
          else w.(counter := counter, queue := [Clone(l)] + w.queue, requeued := w.requeued + 1, total := w.total + 1)
  }

  function After(c: Config, w: World, es: seq<Event>): World
    decreases |es|
  {
    if es == [] then w else Next(c, After(c, w, es[..|es| - 1]), es[|es| - 1])
  }

  function Users(es: seq<Event>): nat {
    if es == [] then 0 else Users(es[..|es| - 1]) + if es[|es| - 1].User? then 1 else 0
  }

  function CountNew(q: seq<Lookup>): nat {
    if q == [] then 0 else (if q[0].newSearch then 1 else 0) + CountNew(q[1..])
  }

  lemma {:induction false} CountNewConcat(a: seq<Lookup>, b: seq<Lookup>)
    ensures CountNew(a + b) == CountNew(a) + CountNew(b)
    decreases |a|
  {
    if a == [] {
      ConcatEmpty(b);
    } else {
      TailOfConcat(a, b);
      CountNewConcat(a[1..], b);
    }
  }

  // What every run keeps. Before the first search nothing but new searches is
  // queued and nothing is requeued.
  ghost predicate Bounded(w: World, users: nat) {
    && w.requeued <= LOOKUP_LIMIT && (!w.dead ==> w.requeued <= w.counter <= LOOKUP_LIMIT)
    && w.searches + CountNew(w.queue) <= users && (!w.dead ==> w.searches + CountNew(w.queue) == users)
    && (if w.searches == 0 then w.total == 0 else w.total <= LOOKUP_LIMIT * (w.searches - 1) + w.requeued)
    && (w.searches == 0 ==> w.current.None? && forall i :: 0 <= i < |w.queue| ==> w.queue[i].newSearch)
  }

  lemma BoundedNext(c: Config, w: World, e: Event, users: nat)
    requires Bounded(w, users)
    ensures Bounded(Next(c, w, e), users + if e.User? then 1 else 0)
  {
    match e
    case User(text) =>
      CountNewConcat(w.queue, [NewSearch(text)]);
      assert [NewSearch(text)][1..] == [];
    case Start =>
    case Requeue(l, twice) =>
      TailOfConcat([Clone(l)], w.queue);
      ConcatEmpty(w.queue);
  }

  lemma {:induction false} RunBounded(c: Config, es: seq<Event>)
    ensures Bounded(After(c, BEGINNING, es), Users(es))
    decreases |es|
  {
    if es != [] {
      RunBounded(c, es[..|es| - 1]);
      BoundedNext(c, After(c, BEGINNING, es[..|es| - 1]), es[|es| - 1], Users(es[..|es| - 1]));
    }
  }

  // In any run, between two new searches at most LOOKUP_LIMIT look-ups are
  // requeued, and in all at most LOOKUP_LIMIT for each search begun, of which
  // there are no more than the user asked for: copies never start a new search,
  // so only the user resets the counter. No search is lost: it is begun or still
  // queued, unless the program has died.
  lemma RequeueBound(c: Config, es: seq<Event>)
    ensures var w := After(c, BEGINNING, es);
            && w.requeued <= LOOKUP_LIMIT && w.searches <= Users(es)
            && (!w.dead ==> w.searches + CountNew(w.queue) == Users(es))
            && w.total <= LOOKUP_LIMIT * w.searches
  {
    RunBounded(c, es);
  }
}
