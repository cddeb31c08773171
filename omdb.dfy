/** The OMDb enrichment: a round-robin cursor over the API keys, one lookup per
    (Movie, Release) pair, and the normalisation of the answer into a metadata record.

    The HTTP service is a function from request to response; a response body is the
    JSON object's string fields. Lookups run one after another in input order. */
module Omdb {
  import opened Wrappers
  import opened Text
  import opened Digits

  /** A (Movie, Release) pair: the title and the eligibility year. */
  type Pair = (string, int)

  /** The query parameters of one lookup: apikey, t and y. */
  datatype Request = Request(apiKey: string, title: string, year: int)

  datatype Response = Response(status: int, body: map<string, string>)

  /** One enrichment record; its fields are the columns
      Movie, Release, Cost, Director, Duration, IMDB, in that order. */
  datatype Metadata = Metadata(
    movie: string, release: int, cost: Option<nat>,
    director: Option<string>, duration: Option<string>, imdb: Option<string>)

  const NotAvailable := "N/A"

  /** `data.get(key)`. */
  function Field(body: map<string, string>, key: string): (r: Option<string>)
    ensures r.Some? <==> key in body
    ensures r.Some? ==> r.value == body[key]
  {
    if key in body then Some(body[key]) else None
  }

  /** The BoxOffice field as a number: absent or "N/A" gives no cost; otherwise every
      "$" and "," is removed and the rest converted, a failed conversion giving no cost. */
  function BoxOfficeCost(body: map<string, string>): (r: Option<nat>)
    ensures "BoxOffice" !in body || body["BoxOffice"] == NotAvailable ==> r == None
  {
    var boxOffice := if "BoxOffice" in body then body["BoxOffice"] else NotAvailable;
    if boxOffice == NotAvailable then None
    else ParseNat(RemoveAll(RemoveAll(boxOffice, '$'), ','))
  }

  /** A cost is read from a BoxOffice other than "N/A" exactly when the value is
      digits once every "$" and "," is removed, and it is the value of those digits. */
  lemma BoxOfficeCostDigits(body: map<string, string>)
    requires "BoxOffice" in body && body["BoxOffice"] != NotAvailable
    ensures var digits := RemoveAll(RemoveAll(body["BoxOffice"], '$'), ',');
      && (BoxOfficeCost(body).Some? <==> digits != [] && AllDigits(digits))
      && (BoxOfficeCost(body).Some? ==> BoxOfficeCost(body).value == Value(digits))
  {
  }

  /** A BoxOffice value with any character other than a digit, "$" or "," gives no cost. */
  lemma BoxOfficeRejectsOtherCharacters(body: map<string, string>, c: char)
    requires "BoxOffice" in body && c in body["BoxOffice"]
    requires !IsDigit(c) && c != '$' && c != ','
    ensures BoxOfficeCost(body) == None
  {
    var dollarless := RemoveAll(body["BoxOffice"], '$');
    var digits := RemoveAll(dollarless, ',');
    RemoveAllKeeps(body["BoxOffice"], '$', c);
    RemoveAllKeeps(dollarless, ',', c);
    var k :| 0 <= k < |digits| && digits[k] == c;
  }

  /** The digits of a number grouped by thousands: "1234567" becomes "1,234,567". */
  function Grouped(d: string): string
    decreases |d|
  {
    if |d| <= 3 then d else Grouped(d[..|d| - 3]) + [','] + d[|d| - 3..]
  }

  /** Grouping adds only commas. */
  lemma {:induction false} GroupedAddsCommas(d: string, c: char)
    requires c != ',' && c !in d
    ensures c !in Grouped(d)
    decreases |d|
  {
    if |d| > 3 {
      var front, back := d[..|d| - 3], d[|d| - 3..];
      assert d == front + back;
      GroupedAddsCommas(front, c);
      assert Grouped(d) == Grouped(front) + [','] + back;
    }
  }

  /** A dollar amount as OMDb writes it: "$" and the digits grouped by thousands. */
  function Dollars(n: nat): string {
    "$" + Grouped(ShowNat(n))
  }

  /** Removing the commas of a group, a comma and a comma-free tail. */
  lemma RemoveSeparator(g: string, back: string)
    requires ',' !in back
    ensures RemoveAll(g + [','] + back, ',') == RemoveAll(g, ',') + back
  {
    RemoveAllConcat(g + [','], back, ',');
    RemoveAllConcat(g, [','], ',');
    RemoveAllAbsent(back, ',');
    assert RemoveAll([','], ',') == [];
    assert RemoveAll(g, ',') + [] == RemoveAll(g, ',');
  }

  /** Removing the commas of a grouping gives the digits back. */
  lemma {:induction false} UngroupGrouped(d: string)
    requires ',' !in d
    ensures RemoveAll(Grouped(d), ',') == d
    decreases |d|
  {
    if |d| <= 3 {
      RemoveAllAbsent(d, ',');
    } else {
      var front, back := d[..|d| - 3], d[|d| - 3..];
      assert d == front + back;
      UngroupGrouped(front);
      RemoveSeparator(Grouped(front), back);
    }
  }

  /** Normalising a dollar amount gives the amount back. */
  lemma BoxOfficeDollars(n: nat, body: map<string, string>)
    requires "BoxOffice" in body && body["BoxOffice"] == Dollars(n)
    ensures BoxOfficeCost(body) == Some(n)
  {
    var d := ShowNat(n);
    var g := Grouped(d);
    assert ',' !in d && '$' !in d by {
      forall c | c in d
        ensures c != ',' && c != '$'
      {
        var k :| 0 <= k < |d| && d[k] == c;
        assert IsDigit(d[k]);
      }
    }
    GroupedAddsCommas(d, '$');
    assert Dollars(n) != NotAvailable by {
      assert Dollars(n)[0] == '$';
    }
    RemoveAllConcat("$", g, '$');
    RemoveAllAbsent(g, '$');
    assert RemoveAll("$", '$') == [];
    assert RemoveAll(Dollars(n), '$') == g;
    UngroupGrouped(d);
    ParseShowNat(n);
  }

  /** The value OMDb gives for a film that grossed $45,678. */
  lemma BoxOfficeExample()
    ensures BoxOfficeCost(map["BoxOffice" := "$45,678"]) == Some(45678)
  {
    assert ShowNat(45678) == "45678";
    assert Grouped("45678") == "45,678" by {
      assert "45678"[..2] == "45" && "45678"[2..] == "678";
    }
    BoxOfficeDollars(45678, map["BoxOffice" := "$45,678"]);
  }

  /** search_movie_metadata after the request: a non-200 answer gives no record; any
      other answer gives a record that echoes the title and year asked for, with the
      cost read from BoxOffice and Director, Runtime and imdbID copied as they are. */
  function MetadataOf(name: string, year: int, response: Response): (r: Option<Metadata>)
    ensures r.None? <==> response.status != 200
    ensures r.Some? ==>
      && r.value.movie == name && r.value.release == year
      && r.value.cost == BoxOfficeCost(response.body)
      && r.value.director == Field(response.body, "Director")
      && r.value.duration == Field(response.body, "Runtime")
      && r.value.imdb == Field(response.body, "imdbID")
  {
    if response.status != 200 then None
    else
      var body := response.body;
      Some(Metadata(name, year, BoxOfficeCost(body),
        Field(body, "Director"), Field(body, "Runtime"), Field(body, "imdbID")))
  }

  /** The lookup of one pair with a given key. */
  function Lookup(pair: Pair, key: string, service: Request -> Response): (r: Option<Metadata>)
    ensures r.None? <==> service(Request(key, pair.0, pair.1)).status != 200
    ensures r.Some? ==> r.value.movie == pair.0 && r.value.release == pair.1
  {
    MetadataOf(pair.0, pair.1, service(Request(key, pair.0, pair.1)))
  }

  /** The key the `i`-th lookup after a reset uses: the keys in cyclic order. */
  function KeySchedule(keys: seq<string>, m: nat): (r: seq<string>)
    requires |keys| > 0
    ensures |r| == m
    ensures forall i :: 0 <= i < m ==> r[i] == keys[i % |keys|]
  {
    seq(m, i requires 0 <= i < m => keys[i % |keys|])
  }

  /** `keys` written out `k` times. */
  function Repeat(keys: seq<string>, k: nat): (r: seq<string>)
    ensures |r| == k * |keys|
  {
    if k == 0 then [] else Repeat(keys, k - 1) + keys
  }

  lemma MulAtLeast(d: int, n: int)
    requires d >= 1 && n > 0
    ensures d * n >= n
  {
    assert d * n == (d - 1) * n + n;
    assert (d - 1) * n >= 0;
  }

  /** The remainder is the one `r` in [0, n) with x = q * n + r. */
  lemma ModUnique(x: int, n: int, q: int, r: int)
    requires 0 < n && 0 <= r < n && x == q * n + r
    ensures x % n == r
  {
    var d := q - x / n;
    assert x == (x / n) * n + x % n;
    assert d * n == q * n - (x / n) * n;
    assert d * n == x % n - r;
    if d > 0 {
      MulAtLeast(d, n);
    } else if d < 0 {
      MulAtLeast(-d, n);
    }
  }

  /** Advancing the cursor: one step past `i mod n` is `(i + 1) mod n`. */
  lemma ModSuccessor(i: nat, n: nat)
    requires 0 < n
    ensures (i % n + 1) % n == (i + 1) % n
  {
    var q, r := i / n, i % n;
    assert i == q * n + r;
    if r + 1 < n {
      ModUnique(i + 1, n, q, r + 1);
      ModUnique(r + 1, n, 0, r + 1);
    } else {
      assert i + 1 == (q + 1) * n + 0;
      ModUnique(i + 1, n, q + 1, 0);
      ModUnique(r + 1, n, 1, 0);
    }
  }

  lemma ModOfShift(k: nat, n: nat, t: nat)
    requires 0 < n && t < n
    ensures (k * n + t) % n == t
  {
    ModUnique(k * n + t, n, k, t);
  }

  /** Starting from the first key, `k` rounds of `n` lookups use every key `k` times,
      in key order each round. */
  lemma {:induction false} KeyScheduleRepeats(keys: seq<string>, k: nat)
    requires |keys| > 0
    ensures KeySchedule(keys, k * |keys|) == Repeat(keys, k)
  {
    var n := |keys|;
    if k > 0 {
      KeyScheduleRepeats(keys, k - 1);
      var s, p := KeySchedule(keys, k * n), KeySchedule(keys, (k - 1) * n);
      assert k * n == (k - 1) * n + n;
      forall i | 0 <= i < k * n
        ensures s[i] == (p + keys)[i]
      {
        if i >= (k - 1) * n {
          ModOfShift(k - 1, n, i - (k - 1) * n);
        }
      }
    }
  }

  /** The answer to every pair, in input order, the `i`-th lookup made with key
      `i mod n`. */
  function Lookups(pairs: seq<Pair>, keys: seq<string>, service: Request -> Response): (r: seq<Option<Metadata>>)
    requires |keys| > 0
    ensures |r| == |pairs|
    decreases |pairs|
  {
    if pairs == [] then []
    else
      var last := |pairs| - 1;
      Lookups(pairs[..last], keys, service) + [Lookup(pairs[last], keys[last % |keys|], service)]
  }

  /** The `i`-th answer is the lookup of the `i`-th pair with key `i mod n`. */
  lemma {:induction false} LookupsAt(pairs: seq<Pair>, keys: seq<string>, service: Request -> Response)
    requires |keys| > 0
    ensures forall i :: 0 <= i < |pairs| ==> Lookups(pairs, keys, service)[i] == Lookup(pairs[i], keys[i % |keys|], service)
    decreases |pairs|
  {
    if pairs != [] {
      var last := |pairs| - 1;
      LookupsAt(pairs[..last], keys, service);
    }
  }

  /** The lookups are made with the keys of the schedule, one each, in order. */
  lemma LookupsFollowSchedule(pairs: seq<Pair>, keys: seq<string>, service: Request -> Response)
    requires |keys| > 0
    ensures forall i :: 0 <= i < |pairs| ==>
      Lookups(pairs, keys, service)[i] == Lookup(pairs[i], KeySchedule(keys, |pairs|)[i], service)
  {
    LookupsAt(pairs, keys, service);
  }

  /** The records of the lookups that answered, in order (the `is not None` filter). */
  function Successful(xs: seq<Option<Metadata>>): (r: seq<Metadata>)
    ensures |r| <= |xs|
    decreases |xs|
  {
    if xs == [] then []
    else
      var before := Successful(xs[..|xs| - 1]);
      match xs[|xs| - 1]
      case None => before
      case Some(m) => before + [m]
  }

  /** A record is kept exactly when some lookup returned it. */
  lemma {:induction false} SuccessfulMembers(xs: seq<Option<Metadata>>, m: Metadata)
    ensures m in Successful(xs) <==> Some(m) in xs
    decreases |xs|
  {
    if xs != [] {
      var init := xs[..|xs| - 1];
      SuccessfulMembers(init, m);
      assert xs == init + [xs[|xs| - 1]];
    }
  }

  /** One record per answer: never more records than lookups, and as many exactly
      when every lookup answered. */
  lemma {:induction false} SuccessfulCount(xs: seq<Option<Metadata>>)
    ensures |Successful(xs)| == |xs| <==> forall i :: 0 <= i < |xs| ==> xs[i].Some?
    decreases |xs|
  {
    if xs != [] {
      var init := xs[..|xs| - 1];
      SuccessfulCount(init);
      if !(forall i :: 0 <= i < |xs| ==> xs[i].Some?) {
        var i :| 0 <= i < |xs| && xs[i].None?;
        if i < |init| {
          assert init[i].None?;
        }
      }
    }
  }

  /** The positions of the lookups that answered. */
  function Answered(xs: seq<Option<Metadata>>): set<nat> {
    set i: nat | i < |xs| && xs[i].Some?
  }

  /** The filter keeps one record for each lookup that answered, and no more. */
  lemma {:induction false} SuccessfulCountsAnswers(xs: seq<Option<Metadata>>)
    ensures |Successful(xs)| == |Answered(xs)|
    decreases |xs|
  {
    if xs != [] {
      var n := |xs| - 1;
      var init := xs[..n];
      SuccessfulCountsAnswers(init);
      assert n !in Answered(init);
      if xs[n].Some? {
        assert Answered(xs) == Answered(init) + {n};
      } else {
        assert Answered(xs) == Answered(init);
      }
    }
  }

  predicate Distinct<T(==)>(xs: seq<T>) {
    forall i, j :: 0 <= i < j < |xs| ==> xs[i] != xs[j]
  }

  /** The (Movie, Release) key of each record. */
  function KeysOf(ms: seq<Metadata>): (r: seq<Pair>)
    ensures |r| == |ms| && forall i :: 0 <= i < |ms| ==> r[i] == (ms[i].movie, ms[i].release)
  {
    seq(|ms|, i requires 0 <= i < |ms| => (ms[i].movie, ms[i].release))
  }

  /** Records kept from lookups whose keys differ position by position have
      different keys. */
  lemma {:induction false} SuccessfulKeysDistinct(xs: seq<Option<Metadata>>)
    requires forall i, j :: 0 <= i < j < |xs| && xs[i].Some? && xs[j].Some? ==>
      (xs[i].value.movie, xs[i].value.release) != (xs[j].value.movie, xs[j].value.release)
    ensures Distinct(KeysOf(Successful(xs)))
    decreases |xs|
  {
    if xs != [] {
      var init := xs[..|xs| - 1];
      SuccessfulKeysDistinct(init);
      var before := Successful(init);
      match xs[|xs| - 1]
      case None =>
      case Some(m) =>
        var ks := KeysOf(before + [m]);
        forall a, b | 0 <= a < b < |ks|
          ensures ks[a] != ks[b]
        {
          if b == |ks| - 1 {
            SuccessfulMembers(init, before[a]);
            assert before[a] in before;
            var j :| 0 <= j < |init| && init[j] == Some(before[a]);
            assert xs[j] == init[j];
          } else {
            assert ks[a] == KeysOf(before)[a] && ks[b] == KeysOf(before)[b];
          }
        }
    }
  }

  lemma SuccessfulStep(xs: seq<Option<Metadata>>, x: Option<Metadata>)
    ensures Successful(xs + [x]) == if x.Some? then Successful(xs) + [x.value] else Successful(xs)
  {
    assert (xs + [x])[..|xs|] == xs;
  }

  /** The records of the successful lookups of `pairs`, in input order. */
  function Enriched(pairs: seq<Pair>, keys: seq<string>, service: Request -> Response): (r: seq<Metadata>)
    requires |keys| > 0
    ensures |r| <= |pairs|
  {
    Successful(Lookups(pairs, keys, service))
  }

  /** Looking up one more pair adds its record when the lookup answered. */
  lemma EnrichedStep(pairs: seq<Pair>, keys: seq<string>, service: Request -> Response, i: nat)
    requires |keys| > 0 && i < |pairs|
    ensures var x := Lookup(pairs[i], keys[i % |keys|], service);
      Enriched(pairs[..i + 1], keys, service)
        == if x.Some? then Enriched(pairs[..i], keys, service) + [x.value] else Enriched(pairs[..i], keys, service)
  {
    assert pairs[..i + 1][..i] == pairs[..i];
    SuccessfulStep(Lookups(pairs[..i], keys, service), Lookup(pairs[i], keys[i % |keys|], service));
  }

  /** A record is in the result exactly when some pair's lookup returned it. */
  lemma EnrichedMembers(pairs: seq<Pair>, keys: seq<string>, service: Request -> Response, m: Metadata)
    requires |keys| > 0
    ensures m in Enriched(pairs, keys, service) <==>
      exists i :: 0 <= i < |pairs| && Lookup(pairs[i], keys[i % |keys|], service) == Some(m)
  {
    var xs := Lookups(pairs, keys, service);
    LookupsAt(pairs, keys, service);
    SuccessfulMembers(xs, m);
    if Some(m) in xs {
      var i :| 0 <= i < |xs| && xs[i] == Some(m);
    }
  }

  /** Every record echoes one of the pairs asked for. */
  lemma EnrichedFromPairs(pairs: seq<Pair>, keys: seq<string>, service: Request -> Response)
    requires |keys| > 0
    ensures forall m :: m in Enriched(pairs, keys, service) ==> (m.movie, m.release) in pairs
  {
    var xs := Lookups(pairs, keys, service);
    LookupsAt(pairs, keys, service);
    forall m | m in Enriched(pairs, keys, service)
      ensures (m.movie, m.release) in pairs
    {
      SuccessfulMembers(xs, m);
      var i :| 0 <= i < |xs| && xs[i] == Some(m);
      assert pairs[i] == (m.movie, m.release);
    }
  }

  /** The positions of the pairs whose lookup, with the key the schedule gives it, is
      answered with status 200. */
  function AnsweredPairs(pairs: seq<Pair>, keys: seq<string>, service: Request -> Response): set<nat>
    requires |keys| > 0
  {
    set i: nat | i < |pairs| && service(Request(keys[i % |keys|], pairs[i].0, pairs[i].1)).status == 200
  }

  /** One record per successful lookup: exactly as many records as answers with status
      200, so as many as pairs exactly when every answer has status 200. */
  lemma EnrichedCount(pairs: seq<Pair>, keys: seq<string>, service: Request -> Response)
    requires |keys| > 0
    ensures |Enriched(pairs, keys, service)| == |AnsweredPairs(pairs, keys, service)|
    ensures |Enriched(pairs, keys, service)| == |pairs| <==>
      forall i :: 0 <= i < |pairs| ==> service(Request(keys[i % |keys|], pairs[i].0, pairs[i].1)).status == 200
  {
    var xs := Lookups(pairs, keys, service);
    LookupsAt(pairs, keys, service);
    SuccessfulCount(xs);
    SuccessfulCountsAnswers(xs);
    assert Answered(xs) == AnsweredPairs(pairs, keys, service);
    assert forall i :: 0 <= i < |pairs| ==>
      (xs[i].Some? <==> service(Request(keys[i % |keys|], pairs[i].0, pairs[i].1)).status == 200);
  }

  /** When no answer has status 200, no record is left: the enrichment table is empty. */
  lemma EnrichedNoAnswers(pairs: seq<Pair>, keys: seq<string>, service: Request -> Response)
    requires |keys| > 0
    requires forall i :: 0 <= i < |pairs| ==> service(Request(keys[i % |keys|], pairs[i].0, pairs[i].1)).status != 200
    ensures Enriched(pairs, keys, service) == []
  {
    var xs := Lookups(pairs, keys, service);
    if Enriched(pairs, keys, service) != [] {
      var m := Enriched(pairs, keys, service)[0];
      SuccessfulMembers(xs, m);
      LookupsAt(pairs, keys, service);
    }
  }

  /** Distinct pairs give records with distinct keys: no two records answer the same
      (Movie, Release). */
  lemma EnrichedKeysDistinct(pairs: seq<Pair>, keys: seq<string>, service: Request -> Response)
    requires |keys| > 0 && Distinct(pairs)
    ensures Distinct(KeysOf(Enriched(pairs, keys, service)))
  {
    var xs := Lookups(pairs, keys, service);
    LookupsAt(pairs, keys, service);
    forall i, j | 0 <= i < j < |xs| && xs[i].Some? && xs[j].Some?
      ensures (xs[i].value.movie, xs[i].value.release) != (xs[j].value.movie, xs[j].value.release)
    {
      assert (xs[i].value.movie, xs[i].value.release) == pairs[i];
      assert (xs[j].value.movie, xs[j].value.release) == pairs[j];
    }
    SuccessfulKeysDistinct(xs);
  }

  /** The OMDb client: its API keys, and the index of the key the next lookup uses. */
  class OmdbExtractor {
    const apiKeys: seq<string>
    var currentKeyIndex: nat

    /** The cursor points at a key, or is 0 when there is none. */
    ghost predicate Valid()
      reads this
    {
      currentKeyIndex == 0 || currentKeyIndex < |apiKeys|
    }

    constructor(keys: seq<string>)
      ensures apiKeys == keys && currentKeyIndex == 0 && Valid()
    {
      apiKeys := keys;
      currentKeyIndex := 0;
    }

    /** _get_api_key: the key under the cursor, the cursor advanced by one modulo the
        number of keys. Without keys the indexing raises before the cursor moves. */
    method GetApiKey() returns (r: Result<string>)
      requires Valid()
      modifies this
      ensures Valid()
      ensures |apiKeys| == 0 ==> r == Err(IndexError) && currentKeyIndex == old(currentKeyIndex)
      ensures |apiKeys| > 0 ==>
        && r == Ok(apiKeys[old(currentKeyIndex)])
        && currentKeyIndex == (old(currentKeyIndex) + 1) % |apiKeys|
    {
      if |apiKeys| == 0 {
        return Err(IndexError);
      }
      r := Ok(apiKeys[currentKeyIndex]);
      currentKeyIndex := (currentKeyIndex + 1) % |apiKeys|;
    }

    /** search_movie_metadata: one request with the next key, its answer normalised. */
    method SearchMovieMetadata(name: string, year: int, service: Request -> Response) returns (r: Result<Option<Metadata>>)
      requires Valid()
      modifies this
      ensures Valid()
      ensures |apiKeys| == 0 ==> r == Err(IndexError) && currentKeyIndex == old(currentKeyIndex)
      ensures |apiKeys| > 0 ==>
        && r == Ok(Lookup((name, year), apiKeys[old(currentKeyIndex)], service))
        && currentKeyIndex == (old(currentKeyIndex) + 1) % |apiKeys|
    {
      var key :- GetApiKey();
      var response := service(Request(key, name, year));
      r := Ok(MetadataOf(name, year, response));
    }

    /** execute: reset the cursor, look every pair up, and keep the records of the
        lookups that answered. Without keys the first lookup raises; with keys the
        `i`-th pair is looked up with key `i mod n`, and the cursor ends there. */
    method Execute(pairs: seq<Pair>, service: Request -> Response) returns (r: Result<seq<Metadata>>)
      requires Valid()
      modifies this
      ensures Valid()
      ensures |apiKeys| == 0 && pairs != [] ==> r == Err(IndexError)
      ensures |apiKeys| == 0 && pairs == [] ==> r == Ok([])
      ensures |apiKeys| == 0 ==> currentKeyIndex == 0
      ensures |apiKeys| > 0 ==>
        && r == Ok(Enriched(pairs, apiKeys, service))
        && currentKeyIndex == |pairs| % |apiKeys|
    {
      currentKeyIndex := 0;
      if |apiKeys| == 0 {
        if pairs == [] {
          return Ok([]);
        }
        var found := SearchMovieMetadata(pairs[0].0, pairs[0].1, service);
        return Err(found.error);
      }
      var results: seq<Metadata> := [];
      for i := 0 to |pairs|
        invariant Valid()
        invariant currentKeyIndex == i % |apiKeys|
        invariant results == Enriched(pairs[..i], apiKeys, service)
      {
        ghost var x := Lookup(pairs[i], apiKeys[i % |apiKeys|], service);
        var found := SearchMovieMetadata(pairs[i].0, pairs[i].1, service);
        assert (pairs[i].0, pairs[i].1) == pairs[i] && found.value == x;
        EnrichedStep(pairs, apiKeys, service, i);
        if found.value.Some? {
          results := results + [found.value.value];
        }
        ModSuccessor(i, |apiKeys|);
      }
      assert pairs[..|pairs|] == pairs;
      r := Ok(results);
    }
  }
}
