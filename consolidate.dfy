/**
 * Consolidation of sequential quote pairs into passages. A row is sequential on an index
 * column when its value continues the previous row's or is continued by the next row's;
 * runs of consecutive values share a group id, the run's first value. Rows that are
 * sequential on the reuse index are grouped by their reuse and original run ids and each
 * group is merged into one passage; every other row passes through as a passage of one.
 */
module Consolidate {
  import opened Wrappers
  import opened Text
  import Sorting

  // ---- identify_sequences, on one integer column ----

  /** The row's value is not the previous value plus one (ne_missing against the shifted column); the first row always is. */
  predicate RunStart(vals: seq<int>, i: nat)
    requires i < |vals|
  {
    i == 0 || vals[i] != vals[i - 1] + 1
  }

  /** {field}_sequential: the value is the previous plus one or the next minus one; a missing neighbour never matches. */
  predicate IsSequential(vals: seq<int>, i: nat)
    requires i < |vals|
  {
    (i > 0 && vals[i] == vals[i - 1] + 1) || (i + 1 < |vals| && vals[i] == vals[i + 1] - 1)
  }

  /** Position of the most recent run start at or before i. */
  function LastStart(vals: seq<int>, i: nat): (j: nat)
    requires i < |vals|
    ensures j <= i && RunStart(vals, j)
    ensures forall k :: j < k <= i ==> !RunStart(vals, k)
  {
    if RunStart(vals, i) then i else LastStart(vals, i - 1)
  }

  /** when(col != seq_follow).then(col).otherwise(None): the value at a run start, None elsewhere. */
  function StartMarks(vals: seq<int>): (r: seq<Option<int>>)
    ensures |r| == |vals|
  {
    seq(|vals|, i requires 0 <= i < |vals| => if RunStart(vals, i) then Some(vals[i]) else None)
  }

  /** forward_fill at position i: the value itself, or else the last non-null value above it. */
  function FillAt<T>(xs: seq<Option<T>>, i: nat): Option<T>
    requires i < |xs|
  {
    if xs[i].Some? || i == 0 then xs[i] else FillAt(xs, i - 1)
  }

  function ForwardFill<T>(xs: seq<Option<T>>): (r: seq<Option<T>>)
    ensures |r| == |xs|
  {
    seq(|xs|, i requires 0 <= i < |xs| => FillAt(xs, i))
  }

  /** The two columns identify_sequences adds, one entry per row. */
  datatype Sequences = Sequences(sequential: seq<bool>, group: seq<Option<int>>)

  /** identify_sequences: the sequential flags and the forward-filled run-start values. */
  function IdentifySequences(vals: seq<int>): Sequences {
    Sequences(seq(|vals|, i requires 0 <= i < |vals| => IsSequential(vals, i)), ForwardFill(StartMarks(vals)))
  }

  lemma {:induction false} FillStarts(vals: seq<int>, i: nat)
    requires i < |vals|
    ensures FillAt(StartMarks(vals), i) == Some(vals[LastStart(vals, i)])
    decreases i
  {
    if !RunStart(vals, i) {
      FillStarts(vals, i - 1);
    }
  }

  /**
   * identify_sequences keeps every row, in order, and adds one flag and one group id per row:
   * the flag says the value continues or is continued by a neighbour, and the group id is never
   * null: it is the value of the run's first row, the last row at or above whose value does not
   * continue the one before it.
   */
  lemma IdentifySequencesSpec(vals: seq<int>)
    ensures var r := IdentifySequences(vals);
      |r.sequential| == |vals| && |r.group| == |vals|
      && (forall i :: 0 <= i < |vals| ==>
            (r.sequential[i] <==> (i > 0 && vals[i] == vals[i - 1] + 1) || (i + 1 < |vals| && vals[i] + 1 == vals[i + 1])))
      && (forall i :: 0 <= i < |vals| ==> r.group[i] == Some(vals[LastStart(vals, i)]))
  {
    forall i | 0 <= i < |vals|
      ensures IdentifySequences(vals).group[i] == Some(vals[LastStart(vals, i)])
    {
      FillStarts(vals, i);
    }
  }

  /** Within a run the values climb by one, so a row's group id is its value less its distance from the run start. */
  lemma {:induction false} GroupIsRunStart(vals: seq<int>, i: nat)
    requires i < |vals|
    ensures vals[LastStart(vals, i)] == vals[i] - (i - LastStart(vals, i))
    decreases i
  {
    if !RunStart(vals, i) {
      GroupIsRunStart(vals, i - 1);
    }
  }

  /** A column of consecutive values is one run: every row is sequential and in the group of the first value. */
  lemma {:induction false} AllConsecutive(vals: seq<int>)
    requires |vals| >= 2
    requires forall i :: 0 < i < |vals| ==> vals[i] == vals[i - 1] + 1
    ensures var r := IdentifySequences(vals);
      (forall i :: 0 <= i < |vals| ==> r.sequential[i]) && (forall i :: 0 <= i < |vals| ==> r.group[i] == Some(vals[0]))
  {
    IdentifySequencesSpec(vals);
    forall i | 0 <= i < |vals|
      ensures LastStart(vals, i) == 0
    {
      assert RunStart(vals, LastStart(vals, i));
    }
  }

  /** A column without consecutive neighbours: no row is sequential and each row is its own group. */
  lemma NoneConsecutive(vals: seq<int>)
    requires forall i :: 0 < i < |vals| ==> vals[i] != vals[i - 1] + 1
    ensures var r := IdentifySequences(vals);
      (forall i :: 0 <= i < |vals| ==> !r.sequential[i]) && (forall i :: 0 <= i < |vals| ==> r.group[i] == Some(vals[i]))
  {
    IdentifySequencesSpec(vals);
    forall i | 0 <= i < |vals|
      ensures !IsSequential(vals, i)
    {
      if i + 1 < |vals| {
        assert vals[i + 1] != vals[i] + 1;
      }
    }
  }

  /** [1, 3, 4, 5, 7]: groups [1, 3, 3, 3, 7], sequential [False, True, True, True, False]. */
  lemma IdentifySequencesExample()
    ensures IdentifySequences([1, 3, 4, 5, 7]).group == [Some(1), Some(3), Some(3), Some(3), Some(7)]
    ensures IdentifySequences([1, 3, 4, 5, 7]).sequential == [false, true, true, true, false]
  {
    var vals := [1, 3, 4, 5, 7];
    IdentifySequencesSpec(vals);
    assert !RunStart(vals, 2) && !RunStart(vals, 3);
    assert LastStart(vals, 2) == 1 && LastStart(vals, 3) == 1;
  }

  // ---- grouping, filtering and aggregation ----

  /** The rows whose flag is set, in order. */
  function Where<T>(xs: seq<T>, keep: seq<bool>): (r: seq<T>)
    requires |keep| == |xs|
    ensures forall x :: x in r ==> x in xs
  {
    if xs == [] then []
    else
      var n := |xs| - 1;
      Where(xs[..n], keep[..n]) + (if keep[n] then [xs[n]] else [])
  }

  function Negate(keep: seq<bool>): (r: seq<bool>)
    ensures |r| == |keep| && forall i :: 0 <= i < |keep| ==> r[i] == !keep[i]
  {
    seq(|keep|, i requires 0 <= i < |keep| => !keep[i])
  }

  /** The two filters on a flag and on its negation split the rows between them. */
  lemma {:induction false} WhereSplits<T>(xs: seq<T>, keep: seq<bool>)
    requires |keep| == |xs|
    ensures |Where(xs, keep)| + |Where(xs, Negate(keep))| == |xs|
    decreases |xs|
  {
    if xs != [] {
      var n := |xs| - 1;
      WhereSplits(xs[..n], keep[..n]);
      assert Negate(keep)[..n] == Negate(keep[..n]);
    }
  }

  /** A row whose flag is set is kept. */
  lemma {:induction false} WhereKeeps<T>(xs: seq<T>, keep: seq<bool>, i: nat)
    requires |keep| == |xs| && i < |xs| && keep[i]
    ensures xs[i] in Where(xs, keep)
    decreases |xs|
  {
    var n := |xs| - 1;
    if i < n {
      WhereKeeps(xs[..n], keep[..n], i);
    }
  }

  /** A group_by group: its key and its rows in frame order. */
  datatype Group<K, T> = Group(key: K, members: seq<T>)

  /** Put x in the group for k, opening a new last group when k is new. */
  function AddTo<K(==), T>(gs: seq<Group<K, T>>, k: K, x: T): seq<Group<K, T>> {
    if gs == [] then [Group(k, [x])]
    else if gs[0].key == k then [Group(k, gs[0].members + [x])] + gs[1..]
    else [gs[0]] + AddTo(gs[1..], k, x)
  }

  /** group_by: the rows with equal keys together, groups in order of their first row. */
  function GroupBy<K(==), T>(keys: seq<K>, xs: seq<T>): seq<Group<K, T>>
    requires |keys| == |xs|
  {
    if xs == [] then []
    else
      var n := |xs| - 1;
      AddTo(GroupBy(keys[..n], xs[..n]), keys[n], xs[n])
  }

  /** The rows whose key is k, in order. */
  function Matching<K(==), T>(keys: seq<K>, xs: seq<T>, k: K): (r: seq<T>)
    requires |keys| == |xs|
    ensures forall x :: x in r ==> x in xs
  {
    if xs == [] then []
    else
      var n := |xs| - 1;
      Matching(keys[..n], xs[..n], k) + (if keys[n] == k then [xs[n]] else [])
  }

  /** The rows of the group for k, or none. */
  function Lookup<K(==), T>(gs: seq<Group<K, T>>, k: K): seq<T> {
    if gs == [] then [] else if gs[0].key == k then gs[0].members else Lookup(gs[1..], k)
  }

  predicate DistinctKeys<K(==), T>(gs: seq<Group<K, T>>) {
    forall i, j :: 0 <= i < j < |gs| ==> gs[i].key != gs[j].key
  }

  /** The number of rows over all groups. */
  function Total<K, T>(gs: seq<Group<K, T>>): nat {
    if gs == [] then 0 else |gs[0].members| + Total(gs[1..])
  }

  lemma {:induction false} AddToTotal<K, T>(gs: seq<Group<K, T>>, k: K, x: T)
    ensures Total(AddTo(gs, k, x)) == Total(gs) + 1
    decreases |gs|
  {
    if gs != [] && gs[0].key != k {
      AddToTotal(gs[1..], k, x);
    }
  }

  lemma {:induction false} AddToLookup<K, T>(gs: seq<Group<K, T>>, k: K, x: T, k': K)
    ensures Lookup(AddTo(gs, k, x), k') == Lookup(gs, k') + (if k' == k then [x] else [])
    decreases |gs|
  {
    if gs != [] && gs[0].key != k {
      AddToLookup(gs[1..], k, x, k');
    }
  }

  function KeysOf<K, T>(gs: seq<Group<K, T>>): (ks: seq<K>)
    ensures |ks| == |gs| && forall i :: 0 <= i < |gs| ==> ks[i] == gs[i].key
  {
    seq(|gs|, i requires 0 <= i < |gs| => gs[i].key)
  }

  /** A row with a known key joins that key's group; a new key opens a group at the end. */
  lemma {:induction false} AddToKeySeq<K, T>(gs: seq<Group<K, T>>, k: K, x: T)
    ensures KeysOf(AddTo(gs, k, x)) == KeysOf(gs) + (if k in KeysOf(gs) then [] else [k])
    decreases |gs|
  {
    if gs == [] {
      assert KeysOf(AddTo(gs, k, x)) == [k];
    } else if gs[0].key == k {
      assert KeysOf(AddTo(gs, k, x)) == KeysOf(gs);
    } else {
      var rest := gs[1..];
      AddToKeySeq(rest, k, x);
      assert gs == [gs[0]] + rest;
      KeysOfCons(gs[0], rest);
      KeysOfCons(gs[0], AddTo(rest, k, x));
    }
  }

  lemma KeysOfCons<K, T>(g: Group<K, T>, gs: seq<Group<K, T>>)
    ensures KeysOf([g] + gs) == [g.key] + KeysOf(gs)
  {
    var l, r := KeysOf([g] + gs), [g.key] + KeysOf(gs);
    forall i | 0 <= i < |l| ensures l[i] == r[i] {
      if i > 0 {
        assert ([g] + gs)[i] == gs[i - 1];
      }
    }
  }

  lemma {:induction false} AddToNonEmpty<K, T>(gs: seq<Group<K, T>>, k: K, x: T)
    requires forall i :: 0 <= i < |gs| ==> gs[i].members != []
    ensures forall i :: 0 <= i < |AddTo(gs, k, x)| ==> AddTo(gs, k, x)[i].members != []
    decreases |gs|
  {
    if gs != [] && gs[0].key != k {
      AddToNonEmpty(gs[1..], k, x);
    }
  }

  /** Adding a row keeps the keys distinct and the groups non-empty. */
  lemma AddToKeys<K, T>(gs: seq<Group<K, T>>, k: K, x: T)
    requires DistinctKeys(gs) && forall i :: 0 <= i < |gs| ==> gs[i].members != []
    ensures var r := AddTo(gs, k, x);
      DistinctKeys(r) && (forall i :: 0 <= i < |r| ==> r[i].members != [])
  {
    AddToNonEmpty(gs, k, x);
    AddToKeySeq(gs, k, x);
    var r := AddTo(gs, k, x);
    var ks := KeysOf(r);
    forall i, j | 0 <= i < j < |r| ensures r[i].key != r[j].key {
      assert ks[i] == r[i].key && ks[j] == r[j].key;
      if j == |gs| {
        assert ks[j] == k && k !in KeysOf(gs);
        assert ks[i] == KeysOf(gs)[i];
      } else {
        assert ks[i] == gs[i].key && ks[j] == gs[j].key;
      }
    }
  }

  /** A group's rows are exactly the rows with its key. */
  lemma {:induction false} LookupIsMembers<K, T>(gs: seq<Group<K, T>>, i: nat)
    requires DistinctKeys(gs) && i < |gs|
    ensures Lookup(gs, gs[i].key) == gs[i].members
    decreases i
  {
    if i > 0 {
      assert DistinctKeys(gs[1..]);
      LookupIsMembers(gs[1..], i - 1);
    }
  }

  /**
   * group_by puts every row in exactly one group: the keys are distinct, no group is empty,
   * each group holds exactly the rows with its key, in order, and the group sizes add up to
   * the number of rows.
   */
  lemma {:induction false} GroupBySpec<K, T>(keys: seq<K>, xs: seq<T>)
    requires |keys| == |xs|
    ensures var gs := GroupBy(keys, xs);
      DistinctKeys(gs) && Total(gs) == |xs|
      && (forall i :: 0 <= i < |gs| ==> gs[i].members != [])
      && (forall k :: Lookup(gs, k) == Matching(keys, xs, k))
    decreases |xs|
  {
    if xs != [] {
      var n := |xs| - 1;
      var gs := GroupBy(keys[..n], xs[..n]);
      GroupBySpec(keys[..n], xs[..n]);
      AddToTotal(gs, keys[n], xs[n]);
      AddToKeys(gs, keys[n], xs[n]);
      forall k ensures Lookup(GroupBy(keys, xs), k) == Matching(keys, xs, k) {
        AddToLookup(gs, keys[n], xs[n], k);
      }
    }
  }

  /** Each group's rows share the group's key and come from the frame. */
  lemma GroupMembers<K, T>(keys: seq<K>, xs: seq<T>, i: nat)
    requires |keys| == |xs| && i < |GroupBy(keys, xs)|
    ensures var g := GroupBy(keys, xs)[i];
      g.members == Matching(keys, xs, g.key) && g.members != [] && forall x :: x in g.members ==> x in xs
  {
    var gs := GroupBy(keys, xs);
    GroupBySpec(keys, xs);
    LookupIsMembers(gs, i);
    assert Lookup(gs, gs[i].key) == Matching(keys, xs, gs[i].key);
  }

  // ---- consolidate_quotes ----

  /** One row of the sentence-pair frame; other holds the remaining string columns in column order. */
  datatype Quote = Quote(
    matchScore: real,
    reuseId: string,
    reuseSentIndex: int,
    reuseText: string,
    originalId: string,
    originalSentIndex: int,
    originalText: string,
    other: seq<string>)

  /** An output row: the quote's columns and num_sentences. */
  datatype Passage = Passage(quote: Quote, numSentences: nat)

  predicate ReuseLe(a: Quote, b: Quote) {
    a.reuseSentIndex <= b.reuseSentIndex
  }

  predicate PassageLe(a: Passage, b: Passage) {
    a.quote.reuseSentIndex <= b.quote.reuseSentIndex
  }

  function ReuseIndices(rows: seq<Quote>): seq<int> {
    seq(|rows|, i requires 0 <= i < |rows| => rows[i].reuseSentIndex)
  }

  function OriginalIndices(rows: seq<Quote>): seq<int> {
    seq(|rows|, i requires 0 <= i < |rows| => rows[i].originalSentIndex)
  }

  function SumReal(xs: seq<real>): real {
    if xs == [] then 0.0 else xs[0] + SumReal(xs[1..])
  }

  /** mean() */
  function Mean(xs: seq<real>): real
    requires xs != []
  {
    SumReal(xs) / (|xs| as real)
  }

  /** The mean times the number of values is their total. */
  lemma MeanTimesCount(xs: seq<real>)
    requires xs != []
    ensures Mean(xs) * (|xs| as real) == SumReal(xs)
  {
    var n := |xs| as real;
    assert n > 0.0;
    assert (SumReal(xs) / n) * n == SumReal(xs);
  }

  /** unique(): each value once, at its first occurrence. */
  function Unique(xs: seq<string>): (r: seq<string>)
    ensures forall i, j :: 0 <= i < j < |r| ==> r[i] != r[j]
    ensures forall x :: x in r <==> x in xs
  {
    if xs == [] then []
    else
      var n := |xs| - 1;
      var u := Unique(xs[..n]);
      assert forall x :: x in xs <==> x in xs[..n] || x == xs[n];
      u + (if xs[n] in u then [] else [xs[n]])
  }

  function Scores(rows: seq<Quote>): seq<real> {
    seq(|rows|, i requires 0 <= i < |rows| => rows[i].matchScore)
  }

  function ReuseTexts(rows: seq<Quote>): seq<string> {
    seq(|rows|, i requires 0 <= i < |rows| => rows[i].reuseText)
  }

  function OriginalTexts(rows: seq<Quote>): seq<string> {
    seq(|rows|, i requires 0 <= i < |rows| => rows[i].originalText)
  }

  /** The values of the c-th other column. */
  function Column(rows: seq<Quote>, c: nat): seq<string>
    requires forall i :: 0 <= i < |rows| ==> c < |rows[i].other|
  {
    seq(|rows|, i requires 0 <= i < |rows| => rows[i].other[c])
  }

  predicate HasWidth(rows: seq<Quote>, width: nat) {
    forall q :: q in rows ==> |q.other| == width
  }

  /**
   * The aggregation of one group: mean match_score; the first row's ids and indices; the texts
   * joined with " "; each other column's distinct values joined with "; "; the group size.
   */
  function Aggregate(rows: seq<Quote>, width: nat): Passage
    requires rows != [] && HasWidth(rows, width)
  {
    var other := seq(width, c requires 0 <= c < width => Join("; ", Unique(Column(rows, c))));
    Passage(
      Quote(Mean(Scores(rows)), rows[0].reuseId, rows[0].reuseSentIndex, Join(" ", ReuseTexts(rows)),
            rows[0].originalId, rows[0].originalSentIndex, Join(" ", OriginalTexts(rows)), other),
      |rows|)
  }

  /** with_columns(num_sentences=1): a row that is passed through. */
  function Singles(rows: seq<Quote>): seq<Passage> {
    seq(|rows|, i requires 0 <= i < |rows| => Passage(rows[i], 1))
  }

  function Zip<A, B>(a: seq<A>, b: seq<B>): seq<(A, B)>
    requires |a| == |b|
  {
    seq(|a|, i requires 0 <= i < |a| => (a[i], b[i]))
  }

  /** The frame sorted on reuse_sent_index, with its reuse flags and run ids. */
  function SortedByReuse(df: seq<Quote>): seq<Quote> {
    Sorting.Sort(df, ReuseLe)
  }

  /** The rows sequential on the reuse index, keyed by their reuse and original run ids. */
  datatype Stage = Stage(sorted: seq<Quote>, reuse: Sequences, seqRows: seq<Quote>, keys: seq<(Option<int>, Option<int>)>)

  function Prepare(df: seq<Quote>): (st: Stage)
    ensures |st.keys| == |st.seqRows|
    ensures |st.reuse.sequential| == |st.sorted| == |df| && |st.reuse.group| == |df|
    ensures forall q :: q in st.seqRows ==> q in df
  {
    var sorted := SortedByReuse(df);
    assert |sorted| == |multiset(sorted)| == |df|;
    assert forall q :: q in sorted ==> q in multiset(sorted);
    var reuse := IdentifySequences(ReuseIndices(sorted));
    var seqRows := Where(sorted, reuse.sequential);
    var seqGroups := Where(reuse.group, reuse.sequential);
    WhereLength(sorted, reuse.group, reuse.sequential);
    var orig := IdentifySequences(OriginalIndices(seqRows));
    Stage(sorted, reuse, seqRows, Zip(seqGroups, orig.group))
  }

  lemma {:induction false} WhereLength<A, B>(a: seq<A>, b: seq<B>, keep: seq<bool>)
    requires |a| == |b| == |keep|
    ensures |Where(a, keep)| == |Where(b, keep)|
    decreases |a|
  {
    if a != [] {
      var n := |a| - 1;
      WhereLength(a[..n], b[..n], keep[..n]);
    }
  }

  /** The merged passages, one per group of rows sequential on both indices. */
  function Consolidated(st: Stage, width: nat): (r: seq<Passage>)
    requires |st.keys| == |st.seqRows| && HasWidth(st.seqRows, width)
    ensures |r| == |GroupBy(st.keys, st.seqRows)|
  {
    var groups := GroupBy(st.keys, st.seqRows);
    seq(|groups|, i requires 0 <= i < |groups| =>
      GroupMembers(st.keys, st.seqRows, i);
      Aggregate(groups[i].members, width))
  }

  /** The rows not sequential on the reuse index, each passed through with num_sentences 1. */
  function NonSequential(st: Stage): seq<Passage>
    requires |st.reuse.sequential| == |st.sorted|
  {
    Singles(Where(st.sorted, Negate(st.reuse.sequential)))
  }

  /** consolidate_quotes: the passed-through rows and the merged groups, sorted on reuse_sent_index. */
  function ConsolidateQuotes(df: seq<Quote>, width: nat): seq<Passage>
    requires HasWidth(df, width)
  {
    var st := Prepare(df);
    Sorting.Sort(NonSequential(st) + Consolidated(st, width), PassageLe)
  }

  // ---- what consolidate_quotes promises ----

  lemma PassageLeTotal()
    ensures Sorting.TotalPreorder(PassageLe)
  {
  }

  /** The output is ordered by reuse_sent_index and is a rearrangement of the passed-through and merged rows. */
  lemma ConsolidateSorted(df: seq<Quote>, width: nat)
    requires HasWidth(df, width)
    ensures var st := Prepare(df);
      Sorting.SortedBy(ConsolidateQuotes(df, width), PassageLe)
      && multiset(ConsolidateQuotes(df, width)) == multiset(NonSequential(st) + Consolidated(st, width))
  {
    var st := Prepare(df);
    PassageLeTotal();
    Sorting.SortSorted(NonSequential(st) + Consolidated(st, width), PassageLe);
  }

  /** The total of num_sentences over passages. */
  function Sentences(ps: seq<Passage>): nat {
    if ps == [] then 0 else ps[0].numSentences + Sentences(ps[1..])
  }

  lemma {:induction false} SentencesAppend(a: seq<Passage>, b: seq<Passage>)
    ensures Sentences(a + b) == Sentences(a) + Sentences(b)
    decreases |a|
  {
    if a == [] {
      assert a + b == b;
    } else {
      assert (a + b)[1..] == a[1..] + b;
      SentencesAppend(a[1..], b);
    }
  }

  lemma {:induction false} SentencesInsert(x: Passage, s: seq<Passage>, le: (Passage, Passage) -> bool)
    ensures Sentences(Sorting.Insert(x, s, le)) == x.numSentences + Sentences(s)
    decreases |s|
  {
    if s != [] && !le(x, s[0]) {
      SentencesInsert(x, s[1..], le);
    }
  }

  /** Sorting keeps the total. */
  lemma {:induction false} SentencesSort(s: seq<Passage>, le: (Passage, Passage) -> bool)
    ensures Sentences(Sorting.Sort(s, le)) == Sentences(s)
    decreases |s|
  {
    if s != [] {
      SentencesSort(s[1..], le);
      SentencesInsert(s[0], Sorting.Sort(s[1..], le), le);
    }
  }

  lemma {:induction false} SentencesSingles(rows: seq<Quote>)
    ensures Sentences(Singles(rows)) == |rows|
    decreases |rows|
  {
    if rows != [] {
      assert Singles(rows)[1..] == Singles(rows[1..]);
      SentencesSingles(rows[1..]);
    }
  }

  lemma {:induction false} SentencesOfGroups<K, T>(ps: seq<Passage>, gs: seq<Group<K, T>>)
    requires |ps| == |gs| && forall i :: 0 <= i < |ps| ==> ps[i].numSentences == |gs[i].members|
    ensures Sentences(ps) == Total(gs)
    decreases |ps|
  {
    if ps != [] {
      SentencesOfGroups(ps[1..], gs[1..]);
    }
  }

  /** Every input row is counted once: the num_sentences values add up to the number of input rows. */
  lemma ConsolidateCount(df: seq<Quote>, width: nat)
    requires HasWidth(df, width)
    ensures Sentences(ConsolidateQuotes(df, width)) == |df|
  {
    var st := Prepare(df);
    var groups := GroupBy(st.keys, st.seqRows);
    var merged := Consolidated(st, width);
    SentencesSort(NonSequential(st) + merged, PassageLe);
    SentencesAppend(NonSequential(st), merged);
    SentencesSingles(Where(st.sorted, Negate(st.reuse.sequential)));
    forall i | 0 <= i < |merged|
      ensures merged[i].numSentences == |groups[i].members|
    {
      GroupMembers(st.keys, st.seqRows, i);
    }
    SentencesOfGroups(merged, groups);
    GroupBySpec(st.keys, st.seqRows);
    WhereSplits(st.sorted, st.reuse.sequential);
  }

  /** Every passed-through or merged passage appears in any rearrangement of them. */
  lemma InRearrangement(st: Stage, width: nat, out: seq<Passage>, k: nat)
    requires |st.keys| == |st.seqRows| && HasWidth(st.seqRows, width) && |st.reuse.sequential| == |st.sorted|
    requires multiset(out) == multiset(NonSequential(st) + Consolidated(st, width))
    requires k < |NonSequential(st)| + |Consolidated(st, width)|
    ensures (NonSequential(st) + Consolidated(st, width))[k] in out
  {
    var all := NonSequential(st) + Consolidated(st, width);
    assert all[k] in multiset(all);
  }

  /** The i-th merged passage aggregates the i-th group. */
  lemma ConsolidatedAt(st: Stage, width: nat, i: nat)
    requires |st.keys| == |st.seqRows| && HasWidth(st.seqRows, width)
    requires i < |GroupBy(st.keys, st.seqRows)|
    ensures GroupBy(st.keys, st.seqRows)[i].members != [] && HasWidth(GroupBy(st.keys, st.seqRows)[i].members, width)
    ensures Consolidated(st, width)[i] == Aggregate(GroupBy(st.keys, st.seqRows)[i].members, width)
  {
    GroupMembers(st.keys, st.seqRows, i);
  }

  /** A row not sequential on the reuse index comes out unchanged, as a passage of one sentence. */
  lemma PassThrough(df: seq<Quote>, width: nat, i: nat)
    requires HasWidth(df, width) && i < |df| && !Prepare(df).reuse.sequential[i]
    ensures Passage(Prepare(df).sorted[i], 1) in ConsolidateQuotes(df, width)
  {
    var st := Prepare(df);
    var single := Where(st.sorted, Negate(st.reuse.sequential));
    WhereKeeps(st.sorted, Negate(st.reuse.sequential), i);
    var j :| 0 <= j < |single| && single[j] == st.sorted[i];
    assert NonSequential(st)[j] == Passage(st.sorted[i], 1);
    ConsolidateSorted(df, width);
    InRearrangement(st, width, ConsolidateQuotes(df, width), j);
  }

  /**
   * Each group of rows sharing both run ids is merged into one output passage; the group holds
   * exactly the reuse-sequential rows with those ids, in order.
   */
  lemma Merged(df: seq<Quote>, width: nat, i: nat)
    requires HasWidth(df, width)
    requires i < |GroupBy(Prepare(df).keys, Prepare(df).seqRows)|
    ensures var st := Prepare(df);
      var g := GroupBy(st.keys, st.seqRows)[i];
      g.members == Matching(st.keys, st.seqRows, g.key) && g.members != []
      && Aggregate(g.members, width) in ConsolidateQuotes(df, width)
  {
    var st := Prepare(df);
    GroupMembers(st.keys, st.seqRows, i);
    ConsolidatedAt(st, width, i);
    ConsolidateSorted(df, width);
    var ns := NonSequential(st);
    InRearrangement(st, width, ConsolidateQuotes(df, width), |ns| + i);
    assert (ns + Consolidated(st, width))[|ns| + i] == Consolidated(st, width)[i];
  }

  lemma {:induction false} SumBetween(xs: seq<real>, lo: real, hi: real)
    requires forall k :: 0 <= k < |xs| ==> lo <= xs[k] <= hi
    ensures lo * (|xs| as real) <= SumReal(xs) <= hi * (|xs| as real)
    decreases |xs|
  {
    if xs != [] {
      SumBetween(xs[1..], lo, hi);
    }
  }

  /** The mean lies between any bounds on the values. */
  lemma MeanBetween(xs: seq<real>, lo: real, hi: real)
    requires xs != [] && forall k :: 0 <= k < |xs| ==> lo <= xs[k] <= hi
    ensures lo <= Mean(xs) <= hi
  {
    SumBetween(xs, lo, hi);
    var n := |xs| as real;
    assert lo * n / n == lo && hi * n / n == hi;
  }

  /** The merged score is the group's mean, and the merged texts join the group's texts. */
  lemma AggregateValues(rows: seq<Quote>, width: nat)
    requires rows != [] && HasWidth(rows, width)
    ensures var p := Aggregate(rows, width);
      p.quote.matchScore * (|rows| as real) == SumReal(Scores(rows))
      && p.quote.reuseText == Join(" ", ReuseTexts(rows))
      && p.quote.originalText == Join(" ", OriginalTexts(rows))
  {
    var scores := Scores(rows);
    assert |scores| == |rows|;
    MeanTimesCount(scores);
    assert Aggregate(rows, width).quote.matchScore == Mean(scores);
  }

  /**
   * A merged passage: the group's size as num_sentences, the first row's ids and indices, the
   * mean match_score (the group's total divided by its size, so between the lowest and the
   * highest of the group), the texts joined with single spaces in group order, and for each
   * other column each distinct value of the group once.
   */
  lemma AggregateSpec(rows: seq<Quote>, width: nat, lo: real, hi: real)
    requires rows != [] && HasWidth(rows, width)
    requires forall k :: 0 <= k < |rows| ==> lo <= rows[k].matchScore <= hi
    ensures var p := Aggregate(rows, width);
      p.numSentences == |rows|
      && p.quote.reuseId == rows[0].reuseId && p.quote.reuseSentIndex == rows[0].reuseSentIndex
      && p.quote.originalId == rows[0].originalId && p.quote.originalSentIndex == rows[0].originalSentIndex
      && lo <= p.quote.matchScore <= hi
      && p.quote.matchScore * (|rows| as real) == SumReal(Scores(rows))
      && p.quote.reuseText == Join(" ", ReuseTexts(rows))
      && p.quote.originalText == Join(" ", OriginalTexts(rows))
      && |p.quote.other| == width
      && forall c :: 0 <= c < width ==>
           var col := seq(|rows|, k requires 0 <= k < |rows| => rows[k].other[c]);
           p.quote.other[c] == Join("; ", Unique(col))
           && (forall v :: v in Unique(col) <==> exists k :: 0 <= k < |rows| && rows[k].other[c] == v)
  {
    MeanBetween(Scores(rows), lo, hi);
    AggregateValues(rows, width);
    forall c | 0 <= c < width
      ensures forall v :: v in Unique(Column(rows, c)) <==> exists k :: 0 <= k < |rows| && rows[k].other[c] == v
    {
      var col := Column(rows, c);
      forall v | v in Unique(col)
        ensures exists k :: 0 <= k < |rows| && rows[k].other[c] == v
      {
        var k :| 0 <= k < |col| && col[k] == v;
        assert rows[k].other[c] == v;
      }
      forall v | exists k :: 0 <= k < |rows| && rows[k].other[c] == v
        ensures v in Unique(col)
      {
        var k :| 0 <= k < |rows| && rows[k].other[c] == v;
        assert col[k] == v;
      }
    }
  }
}
