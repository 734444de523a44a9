/** Writing an experiment and its histogram to a file, and restoring them from it. */
module StrideJson {
  import opened ByteStrings
  import opened CArithmetic
  import opened JsonDump
  import JsonParserImpl
  import opened JsonParserSpec
  import opened JsonValues
  import opened PrettyExact
  import opened PrettyPrint
  import opened PrettyStrings
  import opened StrideModel

  // ---------- accessors ----------

  /** `Json::int_value`; doubles are truncated towards zero. */
  function IntValue(v: Json): int {
    match v
    case Int(n) => n
    case Double(x) => if x >= 0.0 then x.Floor else -((-x).Floor)
    case _ => 0
  }

  function BoolValue(v: Json): bool {
    v.Bool? && v.b
  }

  function ArrayItems(v: Json): seq<Json> {
    if v.Arr? then v.items else []
  }

  function Find(entries: seq<Entry>, key: string): Json {
    if entries == [] then Null else if entries[0].key == key then entries[0].value else Find(entries[1..], key)
  }

  /** `json[key]`: null when there is no such member. */
  function Get(v: Json, key: string): Json {
    if v.Obj? then Find(v.entries, key) else Null
  }

  // ---------- dump ----------

  function IntItems(xs: seq<nat>): seq<Json> {
    seq(|xs|, i requires 0 <= i < |xs| => Int(ToInt(xs[i])))
  }

  function BoolItems(bs: seq<bool>): seq<Json> {
    seq(|bs|, i requires 0 <= i < |bs| => Bool(bs[i]))
  }

  /** The members in the order of the `std::map`. */
  function Entries(e: Experiment, histogram: seq<nat>, prefetches: seq<bool>): seq<Entry> {
    [ Entry("cache_histogram", Arr(IntItems(histogram))),
      Entry("cache_line_size", Int(CACHE_LINE_SIZE)),
      Entry("first_access_offset", Int(ToInt(e.firstAccessOffset))),
      Entry("fr_thresh", Int(ToInt(e.frThresh))),
      Entry("noise_thresh", Int(ToInt(e.noiseThresh))),
      Entry("prefetch_vector", Arr(BoolItems(prefetches))),
      Entry("step", Int(ToInt(e.step))),
      Entry("stride", Int(ToInt(e.stride))),
      Entry("use_nanosleep", Bool(e.useNanosleep)) ]
  }

  /** The contents of the file. */
  function FileText(e: Experiment, histogram: seq<nat>, prefetches: seq<bool>): string {
    ExperimentPrintable(e, histogram, prefetches);
    Pretty(Dump(Obj(Entries(e, histogram, prefetches)))) + "\n"
  }

  lemma ExperimentPrintable(e: Experiment, histogram: seq<nat>, prefetches: seq<bool>)
    ensures Printable(Obj(Entries(e, histogram, prefetches)))
  {
    assert forall i :: 0 <= i < |histogram| ==> Printable(IntItems(histogram)[i]);
    assert forall i :: 0 <= i < |prefetches| ==> Printable(BoolItems(prefetches)[i]);
    assert Printable(Arr(IntItems(histogram)));
    assert Printable(Arr(BoolItems(prefetches)));
  }

  // ---------- restore ----------

  function SizeOf(v: Json): nat {
    ToSize(IntValue(v))
  }

  function Sizes(items: seq<Json>): seq<nat> {
    seq(|items|, i requires 0 <= i < |items| => SizeOf(items[i]))
  }

  function RestoreValue(v: Json): (Experiment, seq<nat>) {
    (Experiment(IntValue(Get(v, "stride")), SizeOf(Get(v, "step")), SizeOf(Get(v, "first_access_offset")),
                BoolValue(Get(v, "use_nanosleep")), SizeOf(Get(v, "fr_thresh")),
                SizeOf(Get(v, "noise_thresh"))),
     Sizes(ArrayItems(Get(v, "cache_histogram"))))
  }

  /** A file that does not parse restores as null. */
  function Restore(text: string): (Experiment, seq<nat>) {
    match Parse(text, false)
    case Ok(v, _) => RestoreValue(v)
    case Fail(_) => RestoreValue(Null)
  }

  // ---------- the methods ----------

  method DumpExperiment(e: Experiment, histogram: seq<nat>, prefetches: seq<bool>) returns (file: string)
    ensures file == FileText(e, histogram, prefetches)
  {
    hide Pretty, Dump, Printable;
    var histogramValues: seq<Json> := [];
    for i := 0 to |histogram|
      invariant histogramValues == IntItems(histogram[..i])
    {
      histogramValues := histogramValues + [Int(ToInt(histogram[i]))];
    }
    assert histogram[..|histogram|] == histogram;
    var prefetchValues: seq<Json> := [];
    for i := 0 to |prefetches|
      invariant prefetchValues == BoolItems(prefetches[..i])
    {
      prefetchValues := prefetchValues + [Bool(prefetches[i])];
    }
    assert prefetches[..|prefetches|] == prefetches;
    var j := Obj([
      Entry("cache_histogram", Arr(histogramValues)),
      Entry("cache_line_size", Int(CACHE_LINE_SIZE)),
      Entry("first_access_offset", Int(ToInt(e.firstAccessOffset))),
      Entry("fr_thresh", Int(ToInt(e.frThresh))),
      Entry("noise_thresh", Int(ToInt(e.noiseThresh))),
      Entry("prefetch_vector", Arr(prefetchValues)),
      Entry("step", Int(ToInt(e.step))),
      Entry("stride", Int(ToInt(e.stride))),
      Entry("use_nanosleep", Bool(e.useNanosleep)) ]);
    ExperimentPrintable(e, histogram, prefetches);
    var text := DumpText(j);
    var pretty := JsonPrettyPrint(text);
    file := pretty + "\n";
  }

  method DumpText(j: Json) returns (text: string)
    requires Printable(j)
    ensures text == Dump(j)
  {
    text := DumpValue(j, "");
    assert "" + Dump(j) == Dump(j);
  }

  method RestoreExperiment(file: string) returns (e: Experiment, histogram: seq<nat>)
    ensures (e, histogram) == Restore(file)
  {
    hide Parse;
    var v, _ := JsonParserImpl.Parse(file, false);
    e := Experiment(IntValue(Get(v, "stride")), SizeOf(Get(v, "step")), SizeOf(Get(v, "first_access_offset")),
                    BoolValue(Get(v, "use_nanosleep")), SizeOf(Get(v, "fr_thresh")),
                    SizeOf(Get(v, "noise_thresh")));
    var items := ArrayItems(Get(v, "cache_histogram"));
    histogram := [];
    for i := 0 to |items|
      invariant histogram == Sizes(items[..i])
    {
      histogram := histogram + [SizeOf(items[i])];
    }
    assert items[..|items|] == items;
  }

  // ---------- what is restored ----------

  lemma {:induction false} PrefixBefore(p: string, a: string, b: string)
    requires Before(a, b)
    ensures Before(p + a, p + b)
  {
    if p == "" {
      assert p + a == a && p + b == b;
    } else {
      assert (p + a)[1..] == p[1..] + a && (p + b)[1..] == p[1..] + b;
      PrefixBefore(p[1..], a, b);
    }
  }

  lemma {:induction false} ChainSorted(entries: seq<Entry>, i: nat, j: nat)
    requires forall k :: 0 <= k < |entries| - 1 ==> Before(entries[k].key, entries[k + 1].key)
    requires i < j < |entries|
    ensures Before(entries[i].key, entries[j].key)
  {
    if i + 1 < j {
      ChainSorted(entries, i, j - 1);
      BeforeTransitive(entries[i].key, entries[j - 1].key, entries[j].key);
    }
  }

  lemma KeysSorted(e: Experiment, histogram: seq<nat>, prefetches: seq<bool>)
    ensures SortedKeys(Entries(e, histogram, prefetches))
  {
    hide Before;
    var es := Entries(e, histogram, prefetches);
    KeyOrder();
    assert Before(es[0].key, es[1].key) && Before(es[1].key, es[2].key) && Before(es[2].key, es[3].key);
    assert Before(es[3].key, es[4].key) && Before(es[4].key, es[5].key) && Before(es[5].key, es[6].key);
    assert Before(es[6].key, es[7].key) && Before(es[7].key, es[8].key);
    forall i, j | 0 <= i < j < |es| ensures Before(es[i].key, es[j].key) {
      ChainSorted(es, i, j);
    }
  }

  lemma KeyOrder()
    ensures Before("cache_histogram", "cache_line_size") && Before("cache_line_size", "first_access_offset")
    ensures Before("first_access_offset", "fr_thresh") && Before("fr_thresh", "noise_thresh")
    ensures Before("noise_thresh", "prefetch_vector") && Before("prefetch_vector", "step")
    ensures Before("step", "stride") && Before("stride", "use_nanosleep")
  {
    hide Before;
    CacheKeys();
    FlushKeys();
    StepKeys();
    FirstBefore("cache_line_size", "first_access_offset");
    FirstBefore("fr_thresh", "noise_thresh");
    FirstBefore("noise_thresh", "prefetch_vector");
    FirstBefore("prefetch_vector", "step");
    FirstBefore("stride", "use_nanosleep");
  }

  lemma FirstBefore(a: string, b: string)
    requires a != "" && b != "" && a[0] < b[0]
    ensures Before(a, b)
  {
  }

  lemma CacheKeys()
    ensures Before("cache_histogram", "cache_line_size")
  {
    hide Before;
    FirstBefore("histogram", "line_size");
    PrefixBefore("cache_", "histogram", "line_size");
    assert "cache_" + "histogram" == "cache_histogram";
    assert "cache_" + "line_size" == "cache_line_size";
  }

  lemma FlushKeys()
    ensures Before("first_access_offset", "fr_thresh")
  {
    hide Before;
    FirstBefore("irst_access_offset", "r_thresh");
    PrefixBefore("f", "irst_access_offset", "r_thresh");
    assert "f" + "irst_access_offset" == "first_access_offset";
    assert "f" + "r_thresh" == "fr_thresh";
  }

  lemma StepKeys()
    ensures Before("step", "stride")
  {
    hide Before;
    FirstBefore("ep", "ride");
    PrefixBefore("st", "ep", "ride");
    assert "st" + "ep" == "step" && "st" + "ride" == "stride";
  }

  lemma {:induction false} FindAt(entries: seq<Entry>, i: nat)
    requires SortedKeys(entries) && i < |entries|
    ensures Find(entries, entries[i].key) == entries[i].value
  {
    if i > 0 {
      BeforeIrreflexive(entries[0].key);
      FindAt(entries[1..], i - 1);
    }
  }

  lemma IntValueOfEqual(v: Json, n: int)
    requires Equal(v, Int(n))
    ensures IntValue(v) == n
  {
  }

  predicate HarmlessKey(key: string) {
    ':' !in key && '\\' !in key
  }

  /** The object of an experiment is a map whose keys need no care. */
  lemma ExperimentJson(e: Experiment, histogram: seq<nat>, prefetches: seq<bool>)
    ensures var v := Obj(Entries(e, histogram, prefetches));
            Printable(v) && WellFormed(v) && Depth(v) <= 2 && NoTrailingBackslash(v) && NoColon(v) && Finite(v)
  {
    hide Before, HarmlessKey, FlatValue, Entries, EndsInBackslash;
    var es := Entries(e, histogram, prefetches);
    ExperimentPrintable(e, histogram, prefetches);
    KeysSorted(e, histogram, prefetches);
    HarmlessEntries(e, histogram, prefetches);
    FlatEntries(es);
  }

  lemma HarmlessEntries(e: Experiment, histogram: seq<nat>, prefetches: seq<bool>)
    ensures var es := Entries(e, histogram, prefetches);
            forall i :: 0 <= i < |es| ==> HarmlessKey(es[i].key) && FlatValue(es[i].value)
  {
    hide HarmlessKey;
    KeysHarmless();
  }

  lemma KeysHarmless()
    ensures HarmlessKey("cache_histogram") && HarmlessKey("cache_line_size") && HarmlessKey("first_access_offset")
    ensures HarmlessKey("fr_thresh") && HarmlessKey("noise_thresh") && HarmlessKey("prefetch_vector")
    ensures HarmlessKey("step") && HarmlessKey("stride") && HarmlessKey("use_nanosleep")
  {
    assert HarmlessKey("cache_histogram");
    assert HarmlessKey("cache_line_size");
    assert HarmlessKey("first_access_offset");
    hide HarmlessKey;
    ThresholdKeysHarmless();
    StrideKeysHarmless();
  }

  lemma ThresholdKeysHarmless()
    ensures HarmlessKey("fr_thresh") && HarmlessKey("noise_thresh") && HarmlessKey("prefetch_vector")
  {
  }

  lemma StrideKeysHarmless()
    ensures HarmlessKey("step") && HarmlessKey("stride") && HarmlessKey("use_nanosleep")
  {
  }

  predicate Scalar(v: Json) {
    v.Int? || v.Bool?
  }

  /** A scalar or an array of scalars. */
  predicate FlatValue(v: Json) {
    Scalar(v) || (v.Arr? && forall i :: 0 <= i < |v.items| ==> Scalar(v.items[i]))
  }

  lemma {:induction false} FlatArray(items: seq<Json>)
    requires forall i :: 0 <= i < |items| ==> Scalar(items[i])
    ensures ItemsDepth(items) == 0 && WellFormed(Arr(items)) && NoTrailingBackslash(Arr(items)) && NoColon(Arr(items))
    ensures Finite(Arr(items))
  {
    if items != [] {
      FlatArray(items[1..]);
    }
  }

  lemma {:induction false} FlatEntries(es: seq<Entry>)
    requires forall i :: 0 <= i < |es| ==> HarmlessKey(es[i].key) && FlatValue(es[i].value)
    ensures EntriesDepth(es) <= 1
    ensures forall i :: 0 <= i < |es| ==>
              && ':' !in es[i].key && !EndsInBackslash(es[i].key)
              && WellFormed(es[i].value) && NoTrailingBackslash(es[i].value) && NoColon(es[i].value)
              && Finite(es[i].value)
  {
    if es != [] {
      if es[0].value.Arr? {
        FlatArray(es[0].value.items);
      }
      FlatEntries(es[1..]);
      assert es == [es[0]] + es[1..];
    }
  }

  /** What the file holds of an experiment: every number goes through `int`. */
  function Stored(e: Experiment): Experiment {
    Experiment(ToInt(e.stride), ToSize(ToInt(e.step)), ToSize(ToInt(e.firstAccessOffset)), e.useNanosleep,
               ToSize(ToInt(e.frThresh)), ToSize(ToInt(e.noiseThresh)))
  }

  function StoredSizes(xs: seq<nat>): seq<nat> {
    seq(|xs|, i requires 0 <= i < |xs| => ToSize(ToInt(xs[i])))
  }

  lemma RestoreOfEqual(w: Json, e: Experiment, histogram: seq<nat>, prefetches: seq<bool>)
    requires Equal(w, Obj(Entries(e, histogram, prefetches)))
    ensures RestoreValue(w) == (Stored(e), StoredSizes(histogram))
  {
    hide Equal, Get, IntValue, IntItems, BoolItems, StoredSizes, Sizes, SortedKeys;
    var es := Entries(e, histogram, prefetches);
    KeysSorted(e, histogram, prefetches);
    forall i | 0 <= i < |es| ensures Equal(Get(w, es[i].key), es[i].value) {
      GetOfEqual(w, es, i);
    }
    SizesOfEqual(Get(w, es[0].key), histogram);
    IntValueOfEqual(Get(w, es[2].key), ToInt(e.firstAccessOffset));
    IntValueOfEqual(Get(w, es[3].key), ToInt(e.frThresh));
    IntValueOfEqual(Get(w, es[4].key), ToInt(e.noiseThresh));
    IntValueOfEqual(Get(w, es[6].key), ToInt(e.step));
    IntValueOfEqual(Get(w, es[7].key), ToInt(e.stride));
    BoolOfEqual(Get(w, es[8].key), e.useNanosleep);
  }

  lemma BoolOfEqual(v: Json, b: bool)
    requires Equal(v, Bool(b))
    ensures v == Bool(b)
  {
  }

  lemma GetOfEqual(w: Json, entries: seq<Entry>, i: nat)
    requires Equal(w, Obj(entries)) && SortedKeys(entries) && i < |entries|
    ensures Equal(Get(w, entries[i].key), entries[i].value)
  {
    hide Before, Find;
    var ws := w.entries;
    assert forall k :: 0 <= k < |ws| ==> ws[k].key == entries[k].key;
    FindAt(ws, i);
  }

  lemma SizesOfEqual(v: Json, histogram: seq<nat>)
    requires Equal(v, Arr(IntItems(histogram)))
    ensures Sizes(ArrayItems(v)) == StoredSizes(histogram)
  {
    forall i | 0 <= i < |histogram| ensures SizeOf(v.items[i]) == ToSize(ToInt(histogram[i])) {
      assert Equal(v.items[i], IntItems(histogram)[i]);
      IntValueOfEqual(v.items[i], ToInt(histogram[i]));
    }
  }

  /** The whole pipeline, for every experiment and histogram: what is restored from the file that
      was dumped is the experiment with its numbers taken through `int`. */
  lemma RestoreDump(e: Experiment, histogram: seq<nat>, prefetches: seq<bool>)
    ensures Restore(FileText(e, histogram, prefetches)) == (Stored(e), StoredSizes(histogram))
  {
    hide Parse, Pretty, Dump, Equal, Entries, Printable, WellFormed, Depth, NoTrailingBackslash, NoColon, Finite,
      RestoreValue, Stored, StoredSizes;
    var v := Obj(Entries(e, histogram, prefetches));
    ExperimentJson(e, histogram, prefetches);
    PrettyPreservesMeaning(v, "\n", false);
    var o := Parse(FileText(e, histogram, prefetches), false);
    RestoreOfEqual(o.value, e, histogram, prefetches);
  }

  lemma BoolsOfEqual(v: Json, prefetches: seq<bool>)
    requires Equal(v, Arr(BoolItems(prefetches)))
    ensures v.Arr? && |v.items| == |prefetches|
    ensures forall i :: 0 <= i < |prefetches| ==> v.items[i] == Bool(prefetches[i])
  {
    forall i | 0 <= i < |prefetches| ensures v.items[i] == Bool(prefetches[i]) {
      assert Equal(v.items[i], BoolItems(prefetches)[i]);
      BoolOfEqual(v.items[i], prefetches[i]);
    }
  }

  lemma IntsOfEqual(v: Json, xs: seq<nat>)
    requires Equal(v, Arr(IntItems(xs)))
    ensures v.Arr? && |v.items| == |xs| && forall i :: 0 <= i < |xs| ==> IntValue(v.items[i]) == ToInt(xs[i])
  {
    hide ToInt;
    forall i | 0 <= i < |xs| ensures IntValue(v.items[i]) == ToInt(xs[i]) {
      assert Equal(v.items[i], IntItems(xs)[i]);
      IntValueOfEqual(v.items[i], ToInt(xs[i]));
    }
  }

  /** `int_value` cuts the fraction off. */
  lemma IntValueTruncates(x: real)
    ensures var n := IntValue(Double(x)) as real;
            if x < 0.0 then x <= n < x + 1.0 && n <= 0.0 else x - 1.0 < n <= x && 0.0 <= n
    ensures IntValue(NegativeZero) == 0
  {
  }

  /** Members that are missing or of another type are restored as zero, false or empty, and so is all of a
      file that does not parse. */
  lemma RestoreMissing(text: string)
    ensures var v := match Parse(text, false) case Ok(w, _) => w case Fail(_) => Null;
            var (e, histogram) := Restore(text);
            && (!IsNumber(Get(v, "stride")) ==> e.stride == 0) && (!IsNumber(Get(v, "step")) ==> e.step == 0)
            && (!IsNumber(Get(v, "first_access_offset")) ==> e.firstAccessOffset == 0)
            && (Get(v, "use_nanosleep") != Bool(true) ==> !e.useNanosleep)
            && (!IsNumber(Get(v, "fr_thresh")) ==> e.frThresh == 0)
            && (!IsNumber(Get(v, "noise_thresh")) ==> e.noiseThresh == 0)
            && (!Get(v, "cache_histogram").Arr? ==> histogram == [])
  {
    hide Parse, Get;
  }

  /** What stands in the file, member by member; there are no others. */
  ghost predicate FileHolds(v: Json, e: Experiment, histogram: seq<nat>, prefetches: seq<bool>) {
    && v.Obj? && |v.entries| == 9
    && IntValue(Get(v, "stride")) == ToInt(e.stride) && IntValue(Get(v, "step")) == ToInt(e.step)
    && IntValue(Get(v, "first_access_offset")) == ToInt(e.firstAccessOffset)
    && Get(v, "use_nanosleep") == Bool(e.useNanosleep)
    && IntValue(Get(v, "fr_thresh")) == ToInt(e.frThresh) && IntValue(Get(v, "noise_thresh")) == ToInt(e.noiseThresh)
    && IntValue(Get(v, "cache_line_size")) == 64
    && var hits := Get(v, "cache_histogram");
       && hits.Arr? && |hits.items| == |histogram|
       && (forall i :: 0 <= i < |histogram| ==> IntValue(hits.items[i]) == ToInt(histogram[i]))
       && var marks := Get(v, "prefetch_vector");
          && marks.Arr? && |marks.items| == |prefetches|
          && forall i :: 0 <= i < |prefetches| ==> marks.items[i] == Bool(prefetches[i])
  }

  lemma HoldsOfEqual(w: Json, e: Experiment, histogram: seq<nat>, prefetches: seq<bool>)
    requires Equal(w, Obj(Entries(e, histogram, prefetches)))
    ensures FileHolds(w, e, histogram, prefetches)
  {
    hide Equal, Get, IntValue, IntItems, BoolItems, SortedKeys, ToInt;
    var es := Entries(e, histogram, prefetches);
    KeysSorted(e, histogram, prefetches);
    EqualObjects(w, es);
    forall i | 0 <= i < |es| ensures Equal(Get(w, es[i].key), es[i].value) {
      GetOfEqual(w, es, i);
    }
    IntsOfEqual(Get(w, es[0].key), histogram);
    IntValueOfEqual(Get(w, es[1].key), CACHE_LINE_SIZE);
    IntValueOfEqual(Get(w, es[2].key), ToInt(e.firstAccessOffset));
    IntValueOfEqual(Get(w, es[3].key), ToInt(e.frThresh));
    IntValueOfEqual(Get(w, es[4].key), ToInt(e.noiseThresh));
    BoolsOfEqual(Get(w, es[5].key), prefetches);
    IntValueOfEqual(Get(w, es[6].key), ToInt(e.step));
    IntValueOfEqual(Get(w, es[7].key), ToInt(e.stride));
    BoolOfEqual(Get(w, es[8].key), e.useNanosleep);
  }

  lemma EqualObjects(w: Json, entries: seq<Entry>)
    requires Equal(w, Obj(entries))
    ensures w.Obj? && |w.entries| == |entries|
  {
  }

  /** The file parses, and each of its nine members is what it was dumped for. */
  lemma FileMembers(e: Experiment, histogram: seq<nat>, prefetches: seq<bool>)
    ensures var o := Parse(FileText(e, histogram, prefetches), false);
            o.Ok? && FileHolds(o.value, e, histogram, prefetches)
  {
    hide Parse, Pretty, Dump, Equal, Entries, Printable, WellFormed, Depth, NoTrailingBackslash, NoColon, Finite,
      FileHolds;
    var v := Obj(Entries(e, histogram, prefetches));
    ExperimentJson(e, histogram, prefetches);
    PrettyPreservesMeaning(v, "\n", false);
    HoldsOfEqual(Parse(FileText(e, histogram, prefetches), false).value, e, histogram, prefetches);
  }

  /** The sizes that sign extension brings back. */
  predicate FitsSize(x: nat) {
    x < 0x8000_0000 || TWO_64 - 0x8000_0000 <= x < TWO_64
  }

  predicate Fits(e: Experiment, histogram: seq<nat>) {
    && FitsInt(e.stride) && FitsSize(e.step) && FitsSize(e.firstAccessOffset)
    && FitsSize(e.frThresh) && FitsSize(e.noiseThresh)
    && forall i :: 0 <= i < |histogram| ==> FitsSize(histogram[i])
  }

  lemma ToSizeFits(x: nat)
    requires x < TWO_64
    ensures ToSize(ToInt(x)) == x <==> FitsSize(x)
  {
    if TWO_64 - 0x8000_0000 <= x {
      assert x + 0x8000_0000 == TWO_32 * TWO_32 + (x - TWO_64 + 0x8000_0000);
      assert ToInt(x) == x - TWO_64;
    }
  }

  /** Dump and restore give back the same stride, step, first offset, flag, thresholds and
      histogram if and only if every number fits. */
  lemma RestoreExact(e: Experiment, histogram: seq<nat>, prefetches: seq<bool>)
    requires e.step < TWO_64 && e.firstAccessOffset < TWO_64 && e.frThresh < TWO_64 && e.noiseThresh < TWO_64
    requires forall i :: 0 <= i < |histogram| ==> histogram[i] < TWO_64
    ensures Restore(FileText(e, histogram, prefetches)) == (e, histogram) <==> Fits(e, histogram)
  {
    hide Restore, FileText, ToInt, ToSize, FitsSize;
    RestoreDump(e, histogram, prefetches);
    ToIntOfInt(e.stride);
    ToSizeFits(e.step);
    ToSizeFits(e.firstAccessOffset);
    ToSizeFits(e.frThresh);
    ToSizeFits(e.noiseThresh);
    forall i | 0 <= i < |histogram| ensures ToSize(ToInt(histogram[i])) == histogram[i] <==> FitsSize(histogram[i]) {
      ToSizeFits(histogram[i]);
    }
    if StoredSizes(histogram) == histogram {
      assert forall i :: 0 <= i < |histogram| ==> StoredSizes(histogram)[i] == histogram[i];
    }
  }
}
