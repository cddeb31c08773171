/** The script that chains the pieces: read the API keys, fetch the ceremonies and keep
    the most recent ones, collect their nominations, derive each nomination's
    eligibility year, look every distinct (Movie, Release) pair up once, and join the
    answers back onto the nominations.

    The configuration lookup and the CSV files are left out: the key setting is a
    parameter, and the three tables the script writes are the result. */
module Pipeline {
  import opened Wrappers
  import opened Text
  import opened Dates
  import opened Digits
  import opened Wikipedia
  import opened Omdb

  /** The API keys: the OMDB_API_KEY setting (empty when unset) split on ";". */
  function ApiKeys(setting: Option<string>): (keys: seq<string>)
    ensures |keys| >= 1
    ensures forall i :: 0 <= i < |keys| ==> ';' !in keys[i]
    ensures Join(keys, ';') == (if setting.Some? then setting.value else "")
  {
    Split(if setting.Some? then setting.value else "", ';')
  }

  /** Without the setting there is one key, the empty string. */
  lemma ApiKeysUnset()
    ensures ApiKeys(None) == [""]
  {
    SplitNoSeparator("", ';');
  }

  /** Any non-empty list of keys without ";" survives being written as the setting. */
  lemma ApiKeysRoundTrip(keys: seq<string>)
    requires |keys| >= 1 && forall i :: 0 <= i < |keys| ==> ';' !in keys[i]
    ensures ApiKeys(Some(Join(keys, ';'))) == keys
  {
    SplitJoin(keys, ';');
  }

  const CeremonyLimit: nat := 40

  /** DataFrame.tail(n): the last `n` rows, or all of them when there are fewer. */
  function LastN<T>(xs: seq<T>, n: nat): (r: seq<T>)
    ensures |r| == if |xs| < n then |xs| else n
    ensures r == xs[|xs| - |r|..]
  {
    if |xs| <= n then xs else xs[|xs| - n..]
  }

  /** A nomination with its Release column. */
  datatype Winner = Winner(nomination: Nomination, release: int)

  /** The eligibility year: the year of the ceremony date, less one. */
  function ReleaseOf(date: string): (r: Result<int>)
    ensures r.Ok? <==> ParseLongDate(date).Ok?
    ensures r.Ok? ==> r.value + 1 == ParseLongDate(date).value.year && 0 <= r.value <= 9998
    ensures r.Err? ==> r.error == ValueError
  {
    match ParseLongDate(date)
    case Err(e) => Err(e)
    case Ok(d) => Ok(d.year - 1)
  }

  /** A ceremony written in the long form is eligible for the year before. */
  lemma ReleaseOfFormatted(d: Date)
    requires ValidDate(d)
    ensures ReleaseOf(FormatLongDate(d)) == Ok(d.year - 1)
  {
    var s := FormatLongDate(d);
    ParseFormatLongDate(d);
    ReleaseOfParsed(s, d);
  }

  lemma ReleaseOfParsed(s: string, d: Date)
    requires ParseLongDate(s) == Ok(d)
    ensures ReleaseOf(s) == Ok(d.year - 1)
  {
  }

  lemma ShowExample()
    ensures ShowNat(27) == "27" && ShowPadded(2022, 4) == "2022"
  {
    assert ShowNat(2) == "2";
    assert ShowPadded(2, 1) == "2" && ShowPadded(20, 2) == "20" && ShowPadded(202, 3) == "202";
  }

  /** The long form of the date of the 94th ceremony. */
  lemma FormatExample()
    ensures FormatLongDate(Date(2022, 3, 27)) == "March 27, 2022"
  {
    ShowExample();
    assert MonthNames[2] == "March";
  }

  /** The 94th ceremony, held on March 27, 2022, honoured the films of 2021. */
  lemma ReleaseOfExample()
    ensures ReleaseOf("March 27, 2022") == Ok(2021)
  {
    FormatExample();
    ReleaseOfFormatted(Date(2022, 3, 27));
  }

  /** `Series.apply(f)` on the Date column: `f` on each date in row order, each
      nomination kept with its result as Release; the first exception raises. */
  function ApplyToDates(ns: seq<Nomination>, f: string -> Result<int>): (r: Result<seq<Winner>>)
    ensures r.Ok? ==> |r.value| == |ns|
    ensures r.Err? ==> exists i :: 0 <= i < |ns| && f(ns[i].date) == Err(r.error)
    decreases |ns|
  {
    if ns == [] then Ok([])
    else
      match f(ns[0].date)
      case Err(e) => Err(e)
      case Ok(year) =>
        match ApplyToDates(ns[1..], f)
        case Err(e) =>
          var i :| 0 <= i < |ns[1..]| && f(ns[1..][i].date) == Err(e);
          assert ns[1..][i] == ns[i + 1];
          Err(e)
        case Ok(rest) => Ok([Winner(ns[0], year)] + rest)
  }

  /** The column succeeds exactly when `f` succeeds on every date, and then keeps every
      nomination, in order, with its result. */
  lemma {:induction false} ApplyToDatesRows(ns: seq<Nomination>, f: string -> Result<int>)
    ensures ApplyToDates(ns, f).Ok? <==> forall i :: 0 <= i < |ns| ==> f(ns[i].date).Ok?
    ensures ApplyToDates(ns, f).Ok? ==> forall i :: 0 <= i < |ns| ==>
      ApplyToDates(ns, f).value[i] == Winner(ns[i], f(ns[i].date).value)
    decreases |ns|
  {
    if ns != [] {
      ApplyToDatesRows(ns[1..], f);
      assert forall i :: 1 <= i < |ns| ==> ns[i] == ns[1..][i - 1];
    }
  }

  /** `winners["Release"] = winners["Date"].apply(...)`: a table built from no records has
      no Date column, so selecting it raises KeyError. */
  function WithRelease(winners: seq<Nomination>): (r: Result<seq<Winner>>)
    ensures r == Err(KeyError) <==> winners == []
    ensures r.Err? && winners != [] ==> r.error == ValueError
  {
    if winners == [] then Err(KeyError) else ApplyToDates(winners, ReleaseOf)
  }

  /** The Release column of a non-empty table exists exactly when every ceremony date
      parses, and then every nomination is kept, in order, with the year before its
      ceremony. */
  lemma WithReleaseRows(winners: seq<Nomination>)
    requires winners != []
    ensures WithRelease(winners).Ok? <==> forall i :: 0 <= i < |winners| ==> ParseLongDate(winners[i].date).Ok?
    ensures WithRelease(winners).Ok? ==>
      && |WithRelease(winners).value| == |winners|
      && forall i :: 0 <= i < |winners| ==>
           && WithRelease(winners).value[i].nomination == winners[i]
           && ParseLongDate(winners[i].date).Ok?
           && WithRelease(winners).value[i].release + 1 == ParseLongDate(winners[i].date).value.year
  {
    ApplyToDatesRows(winners, ReleaseOf);
  }

  function PairOf(w: Winner): Pair {
    (w.nomination.movie, w.release)
  }

  /** `winners[["Movie", "Release"]]`. */
  function PairsOf(ws: seq<Winner>): (r: seq<Pair>)
    ensures |r| == |ws| && forall i :: 0 <= i < |ws| ==> r[i] == PairOf(ws[i])
  {
    seq(|ws|, i requires 0 <= i < |ws| => PairOf(ws[i]))
  }

  /** drop_duplicates(): each pair at its first occurrence, later repeats dropped. */
  function Dedup(ps: seq<Pair>): (r: seq<Pair>)
    ensures Distinct(r)
    ensures forall p :: p in r <==> p in ps
    decreases |ps|
  {
    if ps == [] then []
    else
      var init, last := ps[..|ps| - 1], ps[|ps| - 1];
      var before := Dedup(init);
      assert forall p :: p in ps <==> p in init || p == last by {
        assert ps == init + [last];
      }
      if last in init then before else before + [last]
  }

  /** The position where `p` first occurs in `ps`. */
  function FirstIndex(ps: seq<Pair>, p: Pair): (i: nat)
    requires p in ps
    ensures i < |ps| && ps[i] == p && p !in ps[..i]
  {
    if ps[0] == p then 0
    else
      assert p in ps[1..] by {
        assert ps == [ps[0]] + ps[1..];
      }
      var i := 1 + FirstIndex(ps[1..], p);
      assert ps[..i] == [ps[0]] + ps[1..][..i - 1];
      i
  }

  lemma FirstIndexPrefix(ps: seq<Pair>, k: nat, p: Pair)
    requires k <= |ps| && p in ps[..k]
    ensures p in ps && FirstIndex(ps[..k], p) == FirstIndex(ps, p)
  {
    var i, j := FirstIndex(ps[..k], p), FirstIndex(ps, p);
    assert ps[..k][i] == ps[i];
    if j < i {
      assert false;
    } else if i < j {
      assert false;
    }
  }

  /** The pairs come out in the order of their first occurrences. */
  lemma {:induction false} DedupFirstOccurrenceOrder(ps: seq<Pair>)
    ensures forall a, b :: 0 <= a < b < |Dedup(ps)| ==>
      FirstIndex(ps, Dedup(ps)[a]) < FirstIndex(ps, Dedup(ps)[b])
    decreases |ps|
  {
    if ps != [] {
      var k := |ps| - 1;
      var init, last := ps[..k], ps[k];
      var before := Dedup(init);
      DedupFirstOccurrenceOrder(init);
      var r := Dedup(ps);
      forall a, b | 0 <= a < b < |r|
        ensures FirstIndex(ps, r[a]) < FirstIndex(ps, r[b])
      {
        assert r[a] in init by {
          assert r[a] == before[a];
        }
        FirstIndexPrefix(ps, k, r[a]);
        if b < |before| {
          assert r[b] == before[b];
          FirstIndexPrefix(ps, k, r[b]);
        } else {
          assert r[b] == last && last !in init;
          assert FirstIndex(ps, last) == k by {
            var j := FirstIndex(ps, last);
            if j < k {
              assert false;
            }
          }
        }
      }
    }
  }

  /** One row of the merged table: a nomination with its Release, and the answer that
      matched its (Movie, Release), if any (otherwise the enrichment columns are empty). */
  datatype FinalRow = FinalRow(winner: Winner, metadata: Option<Metadata>)

  /** The records whose (Movie, Release) is the row's, in their order. */
  function Matches(w: Winner, ms: seq<Metadata>): (r: seq<Metadata>)
    ensures forall m :: m in r <==> m in ms && (m.movie, m.release) == PairOf(w)
    decreases |ms|
  {
    if ms == [] then []
    else
      var init, last := ms[..|ms| - 1], ms[|ms| - 1];
      assert forall m :: m in ms <==> m in init || m == last by {
        assert ms == init + [last];
      }
      if (last.movie, last.release) == PairOf(w) then Matches(w, init) + [last] else Matches(w, init)
  }

  /** The merged rows of one nomination: one per matching record, or one with empty
      enrichment columns when nothing matches. */
  function JoinRow(w: Winner, ms: seq<Metadata>): (r: seq<FinalRow>)
    ensures |r| >= 1
    ensures forall k :: 0 <= k < |r| ==> r[k].winner == w
  {
    var found := Matches(w, ms);
    if found == [] then [FinalRow(w, None)]
    else seq(|found|, k requires 0 <= k < |found| => FinalRow(w, Some(found[k])))
  }

  /** A nomination's merged rows carry exactly the records with its key, each once per
      occurrence; a row with empty enrichment columns is the only row and means that
      no record has its key. */
  lemma JoinRowContents(w: Winner, ms: seq<Metadata>)
    ensures forall k :: 0 <= k < |JoinRow(w, ms)| && JoinRow(w, ms)[k].metadata.Some? ==>
      var m := JoinRow(w, ms)[k].metadata.value; m in ms && (m.movie, m.release) == PairOf(w)
    ensures forall k :: 0 <= k < |JoinRow(w, ms)| && JoinRow(w, ms)[k].metadata.None? ==>
      |JoinRow(w, ms)| == 1 && forall m :: m in ms ==> (m.movie, m.release) != PairOf(w)
    ensures forall m :: m in ms && (m.movie, m.release) == PairOf(w) ==> FinalRow(w, Some(m)) in JoinRow(w, ms)
  {
    var found := Matches(w, ms);
    var r := JoinRow(w, ms);
    if found != [] {
      assert forall k :: 0 <= k < |r| ==> r[k] == FinalRow(w, Some(found[k]));
      forall m | m in ms && (m.movie, m.release) == PairOf(w)
        ensures FinalRow(w, Some(m)) in r
      {
        var k :| 0 <= k < |found| && found[k] == m;
        assert r[k] == FinalRow(w, Some(m));
      }
    }
  }

  /** pd.merge(winners, enriched, on=["Movie", "Release"], how="left"): the nominations in
      their order, each followed through to the records with its key. */
  function LeftJoin(ws: seq<Winner>, ms: seq<Metadata>): (r: seq<FinalRow>)
    ensures |r| >= |ws|
    decreases |ws|
  {
    if ws == [] then [] else LeftJoin(ws[..|ws| - 1], ms) + JoinRow(ws[|ws| - 1], ms)
  }

  /** The left join drops no nomination and invents none: each nomination has a merged
      row, and each merged row carries one of the nominations. */
  lemma {:induction false} LeftJoinKeepsEveryNomination(ws: seq<Winner>, ms: seq<Metadata>)
    ensures forall i :: 0 <= i < |ws| ==> exists j :: 0 <= j < |LeftJoin(ws, ms)| && LeftJoin(ws, ms)[j].winner == ws[i]
    ensures forall j :: 0 <= j < |LeftJoin(ws, ms)| ==> LeftJoin(ws, ms)[j].winner in ws
    decreases |ws|
  {
    if ws != [] {
      var init, w := ws[..|ws| - 1], ws[|ws| - 1];
      var before, rows := LeftJoin(init, ms), JoinRow(w, ms);
      var r := LeftJoin(ws, ms);
      assert r == before + rows;
      LeftJoinKeepsEveryNomination(init, ms);
      forall i | 0 <= i < |ws|
        ensures exists j :: 0 <= j < |r| && r[j].winner == ws[i]
      {
        if i < |init| {
          var j :| 0 <= j < |before| && before[j].winner == init[i];
          assert r[j] == before[j];
        } else {
          assert r[|before|] == rows[0];
        }
      }
      forall j | 0 <= j < |r|
        ensures r[j].winner in ws
      {
        if j < |before| {
          assert r[j] == before[j] && before[j].winner in init;
        } else {
          assert r[j] == rows[j - |before|];
        }
      }
    }
  }

  /** With distinct keys on the right, a record matches a row at most once. */
  lemma MatchesAtMostOne(w: Winner, ms: seq<Metadata>)
    requires Distinct(KeysOf(ms))
    ensures |Matches(w, ms)| <= 1
  {
    var found := Matches(w, ms);
    if |found| >= 2 {
      MatchesAreSubsequence(w, ms);
      assert false;
    }
  }

  /** Two matches of one row come from two positions of `ms` with the same key. */
  lemma {:induction false} MatchesAreSubsequence(w: Winner, ms: seq<Metadata>)
    requires |Matches(w, ms)| >= 2
    ensures exists i, j :: 0 <= i < j < |ms| && KeysOf(ms)[i] == PairOf(w) && KeysOf(ms)[j] == PairOf(w)
    decreases |ms|
  {
    var init, last := ms[..|ms| - 1], ms[|ms| - 1];
    var found := Matches(w, ms);
    if (last.movie, last.release) == PairOf(w) {
      var m := found[0];
      assert m in Matches(w, init);
      assert m in init;
      var i :| 0 <= i < |init| && init[i] == m;
      assert KeysOf(ms)[i] == PairOf(w) && KeysOf(ms)[|ms| - 1] == PairOf(w);
    } else {
      MatchesAreSubsequence(w, init);
      var i, j :| 0 <= i < j < |init| && KeysOf(init)[i] == PairOf(w) && KeysOf(init)[j] == PairOf(w);
      assert KeysOf(ms)[i] == KeysOf(init)[i] && KeysOf(ms)[j] == KeysOf(init)[j];
    }
  }

  /** A merged row that carries nomination `w` with the one record of `ms` that has
      its key, or with nothing when no record has it. */
  predicate RowFits(row: FinalRow, w: Winner, ms: seq<Metadata>) {
    && row.winner == w
    && (row.metadata.None? <==> PairOf(w) !in KeysOf(ms))
    && (row.metadata.Some? ==>
          row.metadata.value in ms && (row.metadata.value.movie, row.metadata.value.release) == PairOf(w))
  }

  /** With distinct keys on the right, a nomination yields exactly one merged row. */
  lemma JoinRowLength(w: Winner, ms: seq<Metadata>)
    requires Distinct(KeysOf(ms))
    ensures |JoinRow(w, ms)| == 1
  {
    MatchesAtMostOne(w, ms);
  }

  /** ... and that row carries the nomination and the one record with its key. */
  lemma JoinRowSingle(w: Winner, ms: seq<Metadata>)
    requires Distinct(KeysOf(ms))
    ensures |JoinRow(w, ms)| == 1 && RowFits(JoinRow(w, ms)[0], w, ms)
  {
    MatchesAtMostOne(w, ms);
    var found := Matches(w, ms);
    var keys := KeysOf(ms);
    if found != [] {
      assert found[0] in found;
      var i :| 0 <= i < |ms| && ms[i] == found[0];
      assert keys[i] == PairOf(w);
    }
  }

  /** With distinct keys on the right, the merge is the nominations' single rows, in order. */
  lemma {:induction false} LeftJoinSingles(ws: seq<Winner>, ms: seq<Metadata>)
    requires Distinct(KeysOf(ms))
    ensures |LeftJoin(ws, ms)| == |ws|
    ensures forall i :: 0 <= i < |ws| ==> LeftJoin(ws, ms)[i] == JoinRow(ws[i], ms)[0]
    decreases |ws|
  {
    if ws != [] {
      var k := |ws| - 1;
      var init := ws[..k];
      LeftJoinSingles(init, ms);
      JoinRowLength(ws[k], ms);
      var before := LeftJoin(init, ms);
      assert LeftJoin(ws, ms) == before + JoinRow(ws[k], ms);
      assert forall i :: 0 <= i < k ==> ws[i] == init[i];
    }
  }

  /** With distinct keys on the right, the merge keeps every nomination exactly once and
      in order: the `i`-th merged row is the `i`-th nomination, carrying the one record
      with its key, or nothing when no record has it. */
  lemma LeftJoinOneToOne(ws: seq<Winner>, ms: seq<Metadata>)
    requires Distinct(KeysOf(ms))
    ensures |LeftJoin(ws, ms)| == |ws|
    ensures forall i :: 0 <= i < |ws| ==> RowFits(LeftJoin(ws, ms)[i], ws[i], ms)
  {
    LeftJoinSingles(ws, ms);
    forall i | 0 <= i < |ws|
      ensures RowFits(LeftJoin(ws, ms)[i], ws[i], ms)
    {
      JoinRowSingle(ws[i], ms);
    }
  }

  /** Among records with distinct keys, a key picks out at most one record. */
  lemma KeyDetermines(ms: seq<Metadata>, m1: Metadata, m2: Metadata)
    requires Distinct(KeysOf(ms)) && m1 in ms && m2 in ms
    requires (m1.movie, m1.release) == (m2.movie, m2.release)
    ensures m1 == m2
  {
    var keys := KeysOf(ms);
    var i :| 0 <= i < |ms| && ms[i] == m1;
    var j :| 0 <= j < |ms| && ms[j] == m2;
    assert keys[i] == keys[j];
  }

  /** Two lists with the same records have the same keys. */
  lemma SameKeys(a: seq<Metadata>, b: seq<Metadata>, key: Pair)
    requires forall m :: m in a ==> m in b
    requires key in KeysOf(a)
    ensures key in KeysOf(b)
  {
    var i :| 0 <= i < |a| && KeysOf(a)[i] == key;
    assert a[i] in b;
    var j :| 0 <= j < |b| && b[j] == a[i];
    assert KeysOf(b)[j] == key;
  }

  /** With distinct keys, a nomination's merged row depends only on which records there are. */
  lemma JoinRowOrderFree(w: Winner, a: seq<Metadata>, b: seq<Metadata>)
    requires Distinct(KeysOf(a)) && Distinct(KeysOf(b))
    requires forall m :: m in a <==> m in b
    ensures JoinRow(w, a) == JoinRow(w, b)
  {
    JoinRowSingle(w, a);
    JoinRowSingle(w, b);
    var ra, rb := JoinRow(w, a)[0], JoinRow(w, b)[0];
    if PairOf(w) in KeysOf(a) {
      SameKeys(a, b, PairOf(w));
    }
    if PairOf(w) in KeysOf(b) {
      SameKeys(b, a, PairOf(w));
    }
    if ra.metadata.Some? {
      KeyDetermines(a, ra.metadata.value, rb.metadata.value);
    }
    assert JoinRow(w, a) == [ra] && JoinRow(w, b) == [rb];
  }

  /** With distinct keys, the merge depends only on which records there are, not on
      their order: the order in which the lookups complete does not matter. */
  lemma {:induction false} LeftJoinOrderFree(ws: seq<Winner>, a: seq<Metadata>, b: seq<Metadata>)
    requires Distinct(KeysOf(a)) && Distinct(KeysOf(b))
    requires forall m :: m in a <==> m in b
    ensures LeftJoin(ws, a) == LeftJoin(ws, b)
    decreases |ws|
  {
    if ws != [] {
      LeftJoinOrderFree(ws[..|ws| - 1], a, b);
      JoinRowOrderFree(ws[|ws| - 1], a, b);
    }
  }

  /** The merge as the script writes it: when no lookup answered, the enrichment table is
      built from an empty list and has no Movie or Release column, and the merge raises
      KeyError instead of leaving the enrichment columns empty. */
  function MergeAsWritten(ws: seq<Winner>, ms: seq<Metadata>): (r: Result<seq<FinalRow>>)
    ensures ms == [] ==> r == Err(KeyError)
    ensures ms != [] ==> r == Ok(LeftJoin(ws, ms))
  {
    if ms == [] then Err(KeyError) else Ok(LeftJoin(ws, ms))
  }

  /** When every lookup fails, the script as written loses all its nominations; the
      left join keeps each one with empty enrichment columns. */
  lemma MergeWithoutAnswers(ws: seq<Winner>)
    requires ws != []
    ensures MergeAsWritten(ws, []) == Err(KeyError)
    ensures |LeftJoin(ws, [])| == |ws|
    ensures forall i :: 0 <= i < |ws| ==> LeftJoin(ws, [])[i] == FinalRow(ws[i], None)
  {
    assert Distinct(KeysOf([]));
    LeftJoinOneToOne(ws, []);
  }

  /** When no OMDb answer has status 200, the lookups leave no record: the script as
      written raises KeyError, where the left join keeps every nomination with empty
      enrichment columns. */
  lemma NoAnswersAsWritten(ws: seq<Winner>, pairs: seq<Pair>, keys: seq<string>, service: Request -> Response)
    requires |keys| > 0
    requires forall i :: 0 <= i < |pairs| ==> service(Request(keys[i % |keys|], pairs[i].0, pairs[i].1)).status != 200
    ensures MergeAsWritten(ws, Enriched(pairs, keys, service)) == Err(KeyError)
    ensures |LeftJoin(ws, Enriched(pairs, keys, service))| == |ws|
    ensures forall i :: 0 <= i < |ws| ==> LeftJoin(ws, Enriched(pairs, keys, service))[i] == FinalRow(ws[i], None)
  {
    EnrichedNoAnswers(pairs, keys, service);
    assert Distinct(KeysOf([]));
    LeftJoinOneToOne(ws, []);
  }

  /** The tables the script writes: the kept ceremonies, the nominations, and the
      nominations joined with their metadata. */
  datatype Artifacts = Artifacts(ceremonies: seq<Ceremony>, winners: seq<Nomination>, enriched: seq<FinalRow>)

  /** The whole run, step by step; the first exception ends it. The merge is the left
      join, which keeps the nominations when no lookup answers. */
  function PipelineResult(
    setting: Option<string>, e: WikipediaExtractor, listing: string -> ListingPage,
    detail: string -> DetailPage, service: Request -> Response): (r: Result<Artifacts>)
    ensures r.Ok? ==> |r.value.ceremonies| <= CeremonyLimit && |r.value.enriched| >= |r.value.winners| >= 1
    ensures r == Err(KeyError) ==>
      && GetCeremonies(e, listing).Ok?
      && AllRecords(LastN(GetCeremonies(e, listing).value, CeremonyLimit), detail) == Ok([])
  {
    var keys := ApiKeys(setting);
    var all :- GetCeremonies(e, listing);
    var ceremonies := LastN(all, CeremonyLimit);
    var winners :- AllRecords(ceremonies, detail);
    var rows :- WithRelease(winners);
    var enriched := Enriched(Dedup(PairsOf(rows)), keys, service);
    Ok(Artifacts(ceremonies, winners, LeftJoin(rows, enriched)))
  }

  /** The nominations the merged rows carry, in order. */
  function MergedWinners(rows: seq<FinalRow>): (r: seq<Winner>)
    ensures |r| == |rows| && forall i :: 0 <= i < |rows| ==> r[i] == rows[i].winner
  {
    seq(|rows|, i requires 0 <= i < |rows| => rows[i].winner)
  }

  /** With distinct keys on the right, the merged rows carry the nominations back
      unchanged and in order. */
  lemma LeftJoinCarriesNominations(ws: seq<Winner>, ms: seq<Metadata>)
    requires Distinct(KeysOf(ms))
    ensures MergedWinners(LeftJoin(ws, ms)) == ws
  {
    var merged := LeftJoin(ws, ms);
    LeftJoinOneToOne(ws, ms);
    assert forall i :: 0 <= i < |ws| ==> MergedWinners(merged)[i] == merged[i].winner == ws[i];
  }

  /** Merging the nominations with the answers for their distinct pairs gives each
      nomination its own answer or nothing, and the merged rows carry the nominations
      back unchanged. */
  lemma MergeFitsAnswers(rows: seq<Winner>, keys: seq<string>, service: Request -> Response)
    requires |keys| > 0
    ensures var answers := Enriched(Dedup(PairsOf(rows)), keys, service);
      && MergedWinners(LeftJoin(rows, answers)) == rows
      && forall i :: 0 <= i < |rows| ==> RowFits(LeftJoin(rows, answers)[i], rows[i], answers)
  {
    var pairs := Dedup(PairsOf(rows));
    var answers := Enriched(pairs, keys, service);
    EnrichedKeysDistinct(pairs, keys, service);
    LeftJoinOneToOne(rows, answers);
    LeftJoinCarriesNominations(rows, answers);
  }

  /** A run that finishes keeps at most the last 40 ceremonies, and its merged table has
      one row per nomination, in order, each with the eligibility year of its ceremony. */
  lemma PipelineKeepsEveryNomination(
    setting: Option<string>, e: WikipediaExtractor, listing: string -> ListingPage,
    detail: string -> DetailPage, service: Request -> Response)
    requires PipelineResult(setting, e, listing, detail, service).Ok?
    ensures var a := PipelineResult(setting, e, listing, detail, service).value;
      && |a.ceremonies| <= CeremonyLimit
      && |a.enriched| == |a.winners|
      && (forall i :: 0 <= i < |a.winners| ==>
           && a.enriched[i].winner.nomination == a.winners[i]
           && ParseLongDate(a.winners[i].date).Ok?
           && a.enriched[i].winner.release + 1 == ParseLongDate(a.winners[i].date).value.year)
  {
    var keys := ApiKeys(setting);
    var all := GetCeremonies(e, listing).value;
    var ceremonies := LastN(all, CeremonyLimit);
    var winners := AllRecords(ceremonies, detail).value;
    var rows := ApplyToDates(winners, ReleaseOf).value;
    var pairs := Dedup(PairsOf(rows));
    var answers := Enriched(pairs, keys, service);
    assert PipelineResult(setting, e, listing, detail, service).value
      == Artifacts(ceremonies, winners, LeftJoin(rows, answers));
    ApplyToDatesRows(winners, ReleaseOf);
    EnrichedKeysDistinct(pairs, keys, service);
    LeftJoinOneToOne(rows, answers);
    var merged := LeftJoin(rows, answers);
    forall i | 0 <= i < |winners|
      ensures merged[i].winner.nomination == winners[i]
      ensures ParseLongDate(winners[i].date).Ok?
      ensures merged[i].winner.release + 1 == ParseLongDate(winners[i].date).value.year
    {
      assert merged[i].winner == rows[i] == Winner(winners[i], ReleaseOf(winners[i].date).value);
    }
  }

  /** In a run that finishes, each merged row holds either nothing or the one answer the
      lookups of the distinct (Movie, Release) pairs gave for its own pair. */
  lemma PipelineRowsFitAnswers(
    setting: Option<string>, e: WikipediaExtractor, listing: string -> ListingPage,
    detail: string -> DetailPage, service: Request -> Response)
    requires PipelineResult(setting, e, listing, detail, service).Ok?
    ensures var a := PipelineResult(setting, e, listing, detail, service).value;
      var answers := Enriched(Dedup(PairsOf(MergedWinners(a.enriched))), ApiKeys(setting), service);
      forall i :: 0 <= i < |a.enriched| ==> RowFits(a.enriched[i], a.enriched[i].winner, answers)
  {
    var keys := ApiKeys(setting);
    var all := GetCeremonies(e, listing).value;
    var winners := AllRecords(LastN(all, CeremonyLimit), detail).value;
    var rows := WithRelease(winners).value;
    var answers := Enriched(Dedup(PairsOf(rows)), keys, service);
    assert PipelineResult(setting, e, listing, detail, service).value.enriched == LeftJoin(rows, answers);
    MergeFitsAnswers(rows, keys, service);
  }

  /** The script: the steps in the order it runs them, with the OMDb client created
      before the first request. */
  method Run(
    setting: Option<string>, e: WikipediaExtractor, listing: string -> ListingPage,
    detail: string -> DetailPage, service: Request -> Response) returns (r: Result<Artifacts>)
    ensures r == PipelineResult(setting, e, listing, detail, service)
  {
    var keys := ApiKeys(setting);
    var omdb := new OmdbExtractor(keys);
    var all :- GetCeremonies(e, listing);
    var ceremonies := LastN(all, CeremonyLimit);
    var winners :- GetMoviesAll(ceremonies, detail);
    var rows :- WithRelease(winners);
    var unique := Dedup(PairsOf(rows));
    var enriched := omdb.Execute(unique, service);
    r := Ok(Artifacts(ceremonies, winners, LeftJoin(rows, enriched.value)));
  }
}
