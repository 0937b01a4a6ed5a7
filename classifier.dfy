/**
 * The reference-prefix classifier shared by `count_components`
 * (script.py:82-132) and `generate_stats` (script.py:135-212), and those
 * two loops over the references of a parsed components dictionary.
 */
module Classifier {
  import opened OrderedMaps
  import opened Parser

  /**
   * The twelve buckets, one per key of the dictionaries the two functions
   * fill; each stands for its key string ("Capacitors", ..., "Mounting
   * Holes", ..., "Diodes/LEDs", ..., "Others").
   */
  datatype Category =
    | Capacitors | Resistors | ICs | FETs | Connectors | Inductors
    | MountingHoles | TestPads | Fiducials | DiodesLEDs | Crystals | Others

  /** The buckets in the order of the source's dictionary literals. */
  const AllCategories: seq<Category> := [
    Capacitors, Resistors, ICs, FETs, Connectors, Inductors,
    MountingHoles, TestPads, Fiducials, DiodesLEDs, Crystals, Others]

  /**
   * The `startswith` cascade, in the order the source writes it: the first
   * test that succeeds decides the bucket.
   */
  function Classify(ref: string): Category {
    if "C" <= ref then Capacitors
    else if "R" <= ref then Resistors
    else if "IC" <= ref || "U" <= ref then ICs
    else if "Q" <= ref || "T" <= ref || "FET" <= ref then FETs
    else if "J" <= ref || "GPIO" <= ref then Connectors
    else if "L" <= ref then Inductors
    else if "MH" <= ref || "H" <= ref then MountingHoles
    else if "TP" <= ref then TestPads
    else if "FID" <= ref then Fiducials
    else if "D" <= ref then DiodesLEDs
    else if "X" <= ref then Crystals
    else Others
  }

  /**
   * Consequences of the order of the cascade: every `T...` reference,
   * `TP...` included, is a FET, so the TestPads bucket is never chosen;
   * `FID...`, `MH...`/`H...` and `GPIO...` reach their own buckets because
   * nothing earlier claims their first letter.
   */
  lemma CascadeAsWritten(ref: string)
    ensures "T" <= ref ==> Classify(ref) == FETs
    ensures "TP" <= ref ==> Classify(ref) == FETs
    ensures Classify(ref) != TestPads
    ensures "FID" <= ref ==> Classify(ref) == Fiducials
    ensures "FET" <= ref ==> Classify(ref) == FETs
    ensures "MH" <= ref || "H" <= ref ==> Classify(ref) == MountingHoles
    ensures "GPIO" <= ref ==> Classify(ref) == Connectors
    ensures "IC" <= ref || "U" <= ref ==> Classify(ref) == ICs
  {
    if "T" <= ref { assert ref[0] == 'T'; }
    if "TP" <= ref { assert ref[0] == 'T' && ref[..1] == "T"; }
    if "FID" <= ref { assert ref[0] == 'F' && ref[1] == 'I'; }
    if "FET" <= ref { assert ref[0] == 'F' && ref[1] == 'E'; }
    if "MH" <= ref { assert ref[0] == 'M'; }
    if "H" <= ref { assert ref[0] == 'H'; }
    if "GPIO" <= ref { assert ref[0] == 'G'; }
    if "IC" <= ref { assert ref[0] == 'I'; }
    if "U" <= ref { assert ref[0] == 'U'; }
  }

  // ---------------------------------------------------------------------
  // Reference definitions

  /** The references of category c, in the order they are listed. */
  function Bucket(refs: seq<string>, c: Category): seq<string> {
    if refs == [] then []
    else
      var init := refs[..|refs| - 1];
      var last := refs[|refs| - 1];
      Bucket(init, c) + (if Classify(last) == c then [last] else [])
  }

  /** A detail list holds exactly the listed references of its category. */
  lemma {:induction false} BucketMembers(refs: seq<string>, c: Category)
    ensures forall x :: x in Bucket(refs, c) <==> x in refs && Classify(x) == c
  {
    if refs != [] {
      var init := refs[..|refs| - 1];
      var last := refs[|refs| - 1];
      assert refs == init + [last];
      BucketMembers(init, c);
    }
  }

  /** Scanning one more reference appends it to its own category's list only. */
  lemma BucketSnoc(refs: seq<string>, x: string)
    ensures forall c :: Bucket(refs + [x], c) == Bucket(refs, c) + (if Classify(x) == c then [x] else [])
  {
    assert (refs + [x])[..|refs|] == refs;
  }

  /** How many of the refs of category c are listed for the first time: what a scan that skips repeats counts. */
  function FirstCount(refs: seq<string>, c: Category): nat {
    if refs == [] then 0
    else
      var init := refs[..|refs| - 1];
      var last := refs[|refs| - 1];
      FirstCount(init, c) + (if last !in init && Classify(last) == c then 1 else 0)
  }

  /** The distinct references listed. */
  function Elements(refs: seq<string>): set<string> {
    set x | x in refs
  }

  /** The sum over the buckets cs of the sizes of their detail lists. */
  function BucketTotal(refs: seq<string>, cs: seq<Category>): nat {
    if cs == [] then 0 else |Bucket(refs, cs[0])| + BucketTotal(refs, cs[1..])
  }

  /** The sum over the buckets cs of the counts in a counts dictionary. */
  function CountTotal(counts: map<Category, nat>, cs: seq<Category>): nat {
    if cs == [] then 0 else (if cs[0] in counts then counts[cs[0]] else 0) + CountTotal(counts, cs[1..])
  }

  /** Every bucket is one of the twelve listed. */
  lemma AllListed()
    ensures forall c :: c in AllCategories
  {
    forall c ensures c in AllCategories {
      match c
      case Capacitors => case Resistors => case ICs => case FETs => case Connectors => case Inductors =>
      case MountingHoles => case TestPads => case Fiducials => case DiodesLEDs => case Crystals => case Others =>
    }
  }

  /** The initial counts dictionary: every bucket at 0. */
  function ZeroCounts(): (m: map<Category, nat>)
    ensures forall c :: c in m && m[c] == 0
  {
    AllListed();
    map c | c in AllCategories :: 0
  }

  /** Every bucket at the empty list. */
  function EmptyDetails(): (m: map<Category, seq<string>>)
    ensures forall c :: c in m && m[c] == []
  {
    AllListed();
    map c | c in AllCategories :: []
  }

  // ---------------------------------------------------------------------
  // The two loops

  /**
   * `count_components`: one count per bucket, each reference counted once
   * (the set of processed references skips repeats).
   */
  method CountComponents(components: Components) returns (counts: map<Category, nat>)
    ensures forall c :: c in counts && counts[c] == FirstCount(components.keys, c)
  {
    var refs := components.keys;
    counts := ZeroCounts();
    var processed: set<string> := {};
    for i := 0 to |refs|
      invariant CountsOf(counts, processed, refs[..i])
    {
      var ref := refs[i];
      assert refs[..i + 1] == refs[..i] + [ref];
      CountsSnoc(counts, processed, refs[..i], ref);
      if ref in processed {
        continue;
      }
      processed := processed + {ref};
      var c := Classify(ref);
      counts := counts[c := counts[c] + 1];
    }
    assert refs[..|refs|] == refs;
  }

  /** The counts and the processed set `count_components` holds after scanning refs. */
  ghost predicate CountsOf(counts: map<Category, nat>, processed: set<string>, refs: seq<string>) {
    && (forall x :: x in processed <==> x in refs)
    && (forall c :: c in counts && counts[c] == FirstCount(refs, c))
  }

  /** One iteration of `count_components`'s loop: a repeat is skipped, a new ref is counted in its bucket. */
  lemma CountsSnoc(counts: map<Category, nat>, processed: set<string>, refs: seq<string>, x: string)
    requires CountsOf(counts, processed, refs)
    ensures x in processed ==> CountsOf(counts, processed, refs + [x])
    ensures x !in processed ==>
      var c := Classify(x);
      CountsOf(counts[c := counts[c] + 1], processed + {x}, refs + [x])
  {
    assert (refs + [x])[..|refs|] == refs;
  }

  /** What `generate_stats` returns in its `stats` dictionary. */
  datatype Stats = Stats(totalRefs: nat, totals: map<Category, nat>, totalNets: nat, totalComponents: nat)

  /**
   * `generate_stats`: per bucket the count and the detail list of its
   * references in the order they are listed; the number of references
   * scanned and of distinct references; and `Total Nets`, which stays 0.
   */
  method GenerateStats(components: Components) returns (stats: Stats, details: map<Category, seq<string>>)
    ensures forall c :: c in details && details[c] == Bucket(components.keys, c)
    ensures forall c :: c in stats.totals && stats.totals[c] == |Bucket(components.keys, c)|
    ensures stats.totalComponents == |components.keys|
    ensures CountTotal(stats.totals, AllCategories) == stats.totalComponents
    ensures stats.totalRefs == |Elements(components.keys)|
    ensures stats.totalNets == 0
  {
    var keys := components.keys;
    var refs: set<string> := {};
    var totals := ZeroCounts();
    var totalComponents := 0;
    details := EmptyDetails();
    for i := 0 to |keys|
      invariant refs == Elements(keys[..i])
      invariant totalComponents == i
      invariant DetailsOf(details, totals, keys[..i])
    {
      var ref := keys[i];
      assert keys[..i + 1] == keys[..i] + [ref];
      DetailsSnoc(details, totals, keys[..i], ref);
      refs := refs + {ref};
      totalComponents := totalComponents + 1;
      var c := Classify(ref);
      totals := totals[c := totals[c] + 1];
      details := details[c := details[c] + [ref]];
    }
    assert keys[..|keys|] == keys;
    stats := Stats(|refs|, totals, 0, totalComponents);
    CountTotalOfBuckets(totals, keys, AllCategories);
    BucketsSumToLength(keys);
  }

  /** The detail lists and totals `generate_stats` holds after scanning refs. */
  ghost predicate DetailsOf(details: map<Category, seq<string>>, totals: map<Category, nat>, refs: seq<string>) {
    && (forall c :: c in details && details[c] == Bucket(refs, c))
    && (forall c :: c in totals && totals[c] == |details[c]|)
  }

  /** One iteration of `generate_stats`'s loop keeps the lists and totals up to date. */
  lemma DetailsSnoc(details: map<Category, seq<string>>, totals: map<Category, nat>, refs: seq<string>, x: string)
    requires DetailsOf(details, totals, refs)
    ensures var c := Classify(x);
      DetailsOf(details[c := details[c] + [x]], totals[c := totals[c] + 1], refs + [x])
  {
    BucketSnoc(refs, x);
  }

  // ---------------------------------------------------------------------
  // Properties of the counts

  /** Each listed reference is in exactly one detail list: the one its category names. */
  lemma BucketsPartition(refs: seq<string>, x: string)
    requires x in refs
    ensures x in Bucket(refs, Classify(x))
    ensures forall c :: c != Classify(x) ==> x !in Bucket(refs, c)
  {
    forall c {
      BucketMembers(refs, c);
    }
  }

  /** Adding one reference adds one to its own bucket's total over a list of buckets. */
  lemma {:induction false} BucketTotalSnoc(refs: seq<string>, x: string, cs: seq<Category>)
    ensures BucketTotal(refs + [x], cs) == BucketTotal(refs, cs) + multiset(cs)[Classify(x)]
  {
    if cs != [] {
      var r := refs + [x];
      assert r[..|r| - 1] == refs && r[|r| - 1] == x;
      assert cs == [cs[0]] + cs[1..];
      BucketTotalSnoc(refs, x, cs[1..]);
    }
  }

  /** Counts that are the bucket sizes add up as the bucket sizes do. */
  lemma {:induction false} CountTotalOfBuckets(counts: map<Category, nat>, refs: seq<string>, cs: seq<Category>)
    requires forall c :: c in counts && counts[c] == |Bucket(refs, c)|
    ensures CountTotal(counts, cs) == BucketTotal(refs, cs)
  {
    if cs != [] {
      CountTotalOfBuckets(counts, refs, cs[1..]);
    }
  }

  /** Every bucket is listed exactly once. */
  lemma AllCategoriesOnce(c: Category)
    ensures multiset(AllCategories)[c] == 1
  {
    AllListed();
    OnceInDistinct(AllCategories, c);
  }

  /** In a list without repetitions, a listed element occurs once. */
  lemma {:induction false} OnceInDistinct(cs: seq<Category>, c: Category)
    requires c in cs && forall i, j :: 0 <= i < j < |cs| ==> cs[i] != cs[j]
    ensures multiset(cs)[c] == 1
  {
    assert cs == [cs[0]] + cs[1..];
    if cs[0] == c {
      assert c !in cs[1..];
    } else {
      OnceInDistinct(cs[1..], c);
    }
  }

  /** The twelve detail lists together are as long as the list of references. */
  lemma {:induction false} BucketsSumToLength(refs: seq<string>)
    ensures BucketTotal(refs, AllCategories) == |refs|
  {
    if refs == [] {
      BucketTotalEmpty(AllCategories);
    } else {
      var init := refs[..|refs| - 1];
      var last := refs[|refs| - 1];
      assert refs == init + [last];
      BucketsSumToLength(init);
      BucketTotalSnoc(init, last, AllCategories);
      AllCategoriesOnce(Classify(last));
    }
  }

  lemma {:induction false} BucketTotalEmpty(cs: seq<Category>)
    ensures BucketTotal([], cs) == 0
  {
    if cs != [] { BucketTotalEmpty(cs[1..]); }
  }

  /** A list whose elements differ from each other has as many distinct elements as entries. */
  lemma {:induction false} DistinctElements(refs: seq<string>)
    requires forall i, j :: 0 <= i < j < |refs| ==> refs[i] != refs[j]
    ensures |Elements(refs)| == |refs|
  {
    if refs != [] {
      var init := refs[..|refs| - 1];
      var last := refs[|refs| - 1];
      DistinctElements(init);
      assert Elements(refs) == Elements(init) + {last};
      assert last !in Elements(init);
    }
  }

  /** On a list without repeats, skipping repeats skips nothing. */
  lemma {:induction false} FirstCountIsBucketSize(refs: seq<string>, c: Category)
    requires forall i, j :: 0 <= i < j < |refs| ==> refs[i] != refs[j]
    ensures FirstCount(refs, c) == |Bucket(refs, c)|
  {
    if refs != [] {
      var init := refs[..|refs| - 1];
      var last := refs[|refs| - 1];
      assert last !in init;
      FirstCountIsBucketSize(init, c);
    }
  }

  /**
   * For a components dictionary, `generate_stats` reports as many distinct
   * references as components, its twelve totals add up to that number, the
   * TestPads total is 0, and `count_components` finds the same count in
   * every bucket.
   */
  lemma StatsAgree(components: Components, c: Category)
    requires components.Valid()
    ensures |Elements(components.keys)| == |components.keys|
    ensures BucketTotal(components.keys, AllCategories) == |components.keys|
    ensures Bucket(components.keys, TestPads) == []
    ensures FirstCount(components.keys, c) == |Bucket(components.keys, c)|
  {
    DistinctElements(components.keys);
    BucketsSumToLength(components.keys);
    FirstCountIsBucketSize(components.keys, c);
    BucketMembers(components.keys, TestPads);
    var b := Bucket(components.keys, TestPads);
    if b != [] {
      CascadeAsWritten(b[0]);
    }
  }
}
