/**
 * What both site scrapers share: the `(url, date, name, description)` result
 * tuple, the ways a search can fail, the "next page" link and its test, the
 * page limit, positional pairing of row lists (`zip`), and the collision
 * suffix loop that makes a name differ from every field of earlier tuples.
 */
module Results {
  import opened Wrappers
  import opened Text

  /** One located result, the tuple `(url, date, name, description)`. */
  datatype Entry = Entry(url: string, date: string, name: string, description: string)

  /** The exception that ends a keyword's search; it is logged and the partial lists are kept. */
  datatype Failure =
    | SearchTimeout                // the search box did not appear in time
    | DateFilterTimeout            // a control of the date picker did not appear in time
    | SortTimeout                  // the sort control did not appear in time
    | NoResultsFound               // the sort step failed and raised "No results found for this keyword."
    | ResultsTimeout               // no result rows appeared on the current page
    | BadDate(text: string)        // the date does not unpack into day, month and year
    | NoPathSegment(link: string)  // the link has no second-to-last `/` segment
    | NextClassMissing             // the next-page link has no `class` attribute

  /** The next-page link: its `class` and `href` attributes (either may be absent). */
  datatype NextButton = NextButton(cls: Option<string>, href: Option<string>)

  /** The `href` of a next-page link that leads nowhere. */
  const NoOpHref := "javascript:;"

  /** How one keyword's search ended: the two lists, how many result pages were read, and the logged failure. */
  datatype Run = Run(pdf: seq<Entry>, nonPdf: seq<Entry>, pagesRead: nat, failure: Option<Failure>)

  /** The page-limit test: a limit of 0 means unbounded (the source compares with `float('inf')`). */
  predicate WithinLimit(page: int, limit: int) {
    limit == 0 || page < limit
  }

  /** A next-page link that may be clicked: present, with a class that lacks `disabled`, and not a no-op. */
  predicate NextEnabled(next: Option<NextButton>) {
    && next.Some?
    && next.value.cls.Some?
    && !Contains(next.value.cls.value, "disabled")
    && next.value.href != Some(NoOpHref)
  }

  /** `zip(a, b, c)`: positional triples, as many as the shortest list has elements. */
  function Zip3<A, B, C>(a: seq<A>, b: seq<B>, c: seq<C>): (r: seq<(A, B, C)>)
    ensures |r| <= |a| && |r| <= |b| && |r| <= |c|
    ensures |r| == |a| || |r| == |b| || |r| == |c|
    ensures forall i :: 0 <= i < |r| ==> r[i] == (a[i], b[i], c[i])
  {
    if a == [] || b == [] || c == [] then []
    else [(a[0], b[0], c[0])] + Zip3(a[1..], b[1..], c[1..])
  }

  /** Walking one element further through `a`, followed by `b`. */
  lemma StepThrough<T>(a: seq<T>, b: seq<T>, i: int)
    requires 0 <= i < |a|
    ensures (a[i..] + b)[0] == a[i]
    ensures (a[i..] + b)[1..] == a[i + 1..] + b
  {
  }

  /** `x in item` for a tuple `item`: `x` equals one of its four fields. */
  predicate InTuple(x: string, e: Entry) {
    x == e.url || x == e.date || x == e.name || x == e.description
  }

  /** `any(x in item for item in urls)`. */
  predicate Taken(x: string, urls: seq<Entry>) {
    exists i :: 0 <= i < |urls| && InTuple(x, urls[i])
  }

  /** Every field of every tuple in `urls`. */
  function Fields(urls: seq<Entry>): set<string> {
    if urls == [] then {}
    else {urls[0].url, urls[0].date, urls[0].name, urls[0].description} + Fields(urls[1..])
  }

  /** The fields collected by `Fields` are exactly the strings `Taken` finds. */
  lemma {:induction false} FieldsTaken(urls: seq<Entry>)
    ensures forall x :: x in Fields(urls) <==> Taken(x, urls)
    decreases |urls|
  {
    if urls != [] {
      FieldsTaken(urls[1..]);
      forall x
        ensures x in Fields(urls) <==> Taken(x, urls)
      {
        if Taken(x, urls[1..]) {
          var i :| 0 <= i < |urls[1..]| && InTuple(x, urls[1..][i]);
          assert InTuple(x, urls[i + 1]);
        }
        if Taken(x, urls) && !InTuple(x, urls[0]) {
          var i :| 0 <= i < |urls| && InTuple(x, urls[i]);
          assert InTuple(x, urls[1..][i - 1]);
        }
      }
    }
  }

  /** The `k`-th name the suffix loop tries: the base name, then `base-1`, `base-2`, ... */
  function Candidate(base: string, k: nat): string {
    if k == 0 then base else base + "-" + NatToString(k)
  }

  /** Different attempts give different names. */
  lemma CandidateInjective(base: string, j: nat, k: nat)
    requires Candidate(base, j) == Candidate(base, k)
    ensures j == k
  {
    if j != 0 && k != 0 {
      assert NatToString(j) == Candidate(base, j)[|base| + 1..];
      assert NatToString(k) == Candidate(base, k)[|base| + 1..];
      NatToStringInjective(j, k);
    }
  }

  /** The first `k` attempted names. */
  function Candidates(base: string, k: nat): set<string> {
    set j | 0 <= j < k :: Candidate(base, j)
  }

  lemma {:induction false} CandidatesSize(base: string, k: nat)
    ensures |Candidates(base, k)| == k
    decreases k
  {
    if k > 0 {
      CandidatesSize(base, k - 1);
      assert Candidates(base, k) == Candidates(base, k - 1) + {Candidate(base, k - 1)};
      if Candidate(base, k - 1) in Candidates(base, k - 1) {
        var j :| 0 <= j < k - 1 && Candidate(base, j) == Candidate(base, k - 1);
        CandidateInjective(base, j, k - 1);
      }
    }
  }

  /** If the first `k` attempts all collide, there are at least `k` taken strings. */
  lemma CandidatesBound(base: string, taken: set<string>, k: nat)
    requires forall j :: 0 <= j < k ==> Candidate(base, j) in taken
    ensures k <= |taken|
  {
    CandidatesSize(base, k);
    var tried := Candidates(base, k);
    assert tried <= taken;
    assert taken == tried + (taken - tried);
    assert |taken| == |tried| + |taken - tried|;
  }

  /** The number of the first attempt at or after `k` that is not taken. */
  function FreeIndexFrom(base: string, taken: set<string>, k: nat): (r: nat)
    requires forall j :: 0 <= j < k ==> Candidate(base, j) in taken
    ensures k <= r
    ensures Candidate(base, r) !in taken
    ensures forall j :: 0 <= j < r ==> Candidate(base, j) in taken
    decreases |taken| - k
  {
    CandidatesBound(base, taken, k);
    if Candidate(base, k) !in taken then k
    else
      CandidatesBound(base, taken, k + 1);
      FreeIndexFrom(base, taken, k + 1)
  }

  /**
   * The name the suffix loop settles on: the first of `base`, `base-1`,
   * `base-2`, ... that equals no field of any tuple in `urls`.
   */
  function UniqueName(base: string, urls: seq<Entry>): (name: string)
    ensures !Taken(name, urls)
    ensures exists k: nat :: name == Candidate(base, k) && forall j :: 0 <= j < k ==> Taken(Candidate(base, j), urls)
  {
    FieldsTaken(urls);
    Candidate(base, FreeIndexFrom(base, Fields(urls), 0))
  }

  /** A base name that is not taken is kept as it is; in particular nothing is appended when `urls` is empty. */
  lemma UniqueNameKeepsFree(base: string, urls: seq<Entry>)
    requires !Taken(base, urls)
    ensures UniqueName(base, urls) == base
  {
    var k: nat :| UniqueName(base, urls) == Candidate(base, k) && forall j :: 0 <= j < k ==> Taken(Candidate(base, j), urls);
    assert k > 0 ==> Taken(Candidate(base, 0), urls);
  }

  /** An attempted name uses only the characters of the base, `-` and digits. */
  lemma CandidateChars(base: string, k: nat)
    ensures forall ch :: ch in Candidate(base, k) ==> ch in base || ch == '-' || IsDigit(ch)
  {
  }

  /**
   * The collision loop: start from `base` and, while the name equals a field
   * of some tuple in `urls`, try `base-counter` with `counter` counting up
   * from 1. It always stops, at `UniqueName(base, urls)`.
   */
  method SuffixUntilFree(base: string, urls: seq<Entry>) returns (name: string)
    ensures name == UniqueName(base, urls)
  {
    name := base;
    var counter := 1;
    while Taken(name, urls)
      invariant 1 <= counter
      invariant name == Candidate(base, counter - 1)
      invariant forall j :: 0 <= j < counter - 1 ==> Taken(Candidate(base, j), urls)
      decreases |Fields(urls)| - (counter - 1)
    {
      TakenBound(base, urls, counter);
      name := base + "-" + NatToString(counter);
      counter := counter + 1;
    }
    FirstFreeIsUnique(base, urls, counter - 1);
  }

  /** If the first `k` attempts all collide, `urls` has at least `k` distinct fields. */
  lemma TakenBound(base: string, urls: seq<Entry>, k: nat)
    requires forall j :: 0 <= j < k ==> Taken(Candidate(base, j), urls)
    ensures k <= |Fields(urls)|
  {
    FieldsTaken(urls);
    CandidatesBound(base, Fields(urls), k);
  }

  /** The first attempt that is not taken is the name `UniqueName` picks. */
  lemma FirstFreeIsUnique(base: string, urls: seq<Entry>, tries: nat)
    requires forall j :: 0 <= j < tries ==> Taken(Candidate(base, j), urls)
    requires !Taken(Candidate(base, tries), urls)
    ensures Candidate(base, tries) == UniqueName(base, urls)
  {
    var k: nat :| UniqueName(base, urls) == Candidate(base, k) && forall j :: 0 <= j < k ==> Taken(Candidate(base, j), urls);
    assert k < tries ==> Taken(Candidate(base, k), urls);
    assert k > tries ==> Taken(Candidate(base, tries), urls);
  }
}
