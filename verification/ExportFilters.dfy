// Normalising the filters of an export request.
module ExportFilters {
  import opened Wrappers
  import opened Text
  import opened EventFacts
  import Rfc3339

  datatype ExportFilter = ExportFilter(event: string, objectKey: string, recordID: string, actorID: string,
                                       roleKey: string, result: string, createdFrom: string, createdTo: string)
  datatype ExportRequest = ExportRequest(format: string, filters: ExportFilter)

  const RETENTION := 365 * 86400 * Rfc3339.NANOS
  const FORMAT_INVALID := "export_format_invalid"
  const FILTER_INVALID := "export_filter_invalid"
  const RANGE_INVALID := "export_time_range_invalid"

  function Cutoff(now: int): string {
    Rfc3339.Format(now - RETENTION)
  }

  predicate CleanField(value: string) {
    TrimSpace(value) == "" || FilterValue(TrimSpace(value))
  }

  predicate CleanFields(f: ExportFilter) {
    CleanField(f.event) && CleanField(f.objectKey) && CleanField(f.recordID) && CleanField(f.actorID) &&
    CleanField(f.roleKey) && CleanField(f.result)
  }

  // A time bound in whole-second UTC text; blank stays blank.
  function UtcBound(value: string): Option<string> {
    if TrimSpace(value) == "" then Some("")
    else
      var t :- Rfc3339.Parse(TrimSpace(value));
      Some(Rfc3339.Format(t))
  }

  function FormatAccepted(format: string): bool {
    var f := ToLower(TrimSpace(format));
    f == "" || f == "csv"
  }

  function NormalizeOf(request: ExportRequest, now: int): Result<ExportFilter, string> {
    var f := request.filters;
    var from, to := UtcBound(f.createdFrom), UtcBound(f.createdTo);
    if !FormatAccepted(request.format) then Failure(FORMAT_INVALID)
    else if !CleanFields(f) then Failure(FILTER_INVALID)
    else if from.None? || to.None? || (from.value != "" && to.value != "" && Less(to.value, from.value)) then
      Failure(RANGE_INVALID)
    else
      var low := if from.value == "" || Less(from.value, Cutoff(now)) then Cutoff(now) else from.value;
      Success(ExportFilter(TrimSpace(f.event), TrimSpace(f.objectKey), TrimSpace(f.recordID), TrimSpace(f.actorID),
                           TrimSpace(f.roleKey), ToLower(TrimSpace(f.result)), low, to.value))
  }

  function Fields(f: ExportFilter): seq<string> {
    [f.event, f.objectKey, f.recordID, f.actorID, f.roleKey, f.result]
  }

  method CleanValues(input: seq<string>) returns (values: seq<string>, ok: bool)
    ensures ok <==> forall i :: 0 <= i < |input| ==> CleanField(input[i])
    ensures ok ==> |values| == |input| && forall i :: 0 <= i < |input| ==> values[i] == TrimSpace(input[i])
  {
    values := input;
    for i := 0 to |input|
      invariant |values| == |input|
      invariant forall k :: 0 <= k < i ==> values[k] == TrimSpace(input[k]) && CleanField(input[k])
      invariant forall k :: i <= k < |input| ==> values[k] == input[k]
    {
      values := values[i := TrimSpace(values[i])];
      if values[i] != "" && !FilterValue(values[i]) {
        return values, false;
      }
    }
    ok := true;
  }

  method NormalizeBounds(input: seq<string>) returns (values: seq<string>, ok: bool)
    ensures ok <==> forall i :: 0 <= i < |input| ==> UtcBound(input[i]).Some?
    ensures ok ==> |values| == |input| && forall i :: 0 <= i < |input| ==> Some(values[i]) == UtcBound(input[i])
  {
    hide Rfc3339.Parse, Rfc3339.Format;
    values := input;
    for i := 0 to |input|
      invariant |values| == |input|
      invariant forall k :: 0 <= k < i ==> Some(values[k]) == UtcBound(input[k])
      invariant forall k :: i <= k < |input| ==> values[k] == input[k]
    {
      values := values[i := TrimSpace(values[i])];
      if values[i] != "" {
        var parsed := Rfc3339.Parse(values[i]);
        if parsed.None? {
          return values, false;
        }
        values := values[i := Rfc3339.Format(parsed.value)];
      }
    }
    ok := true;
  }

  lemma {:induction false} FieldsAreSix(f: ExportFilter)
    ensures (forall i :: 0 <= i < |Fields(f)| ==> CleanField(Fields(f)[i])) <==> CleanFields(f)
  {
    hide CleanField;
    var six := Fields(f);
    if forall i :: 0 <= i < |six| ==> CleanField(six[i]) {
      assert CleanField(six[0]) && CleanField(six[1]) && CleanField(six[2]);
      assert CleanField(six[3]) && CleanField(six[4]) && CleanField(six[5]);
    }
  }

  method NormalizeExportFilters(request: ExportRequest, now: int) returns (r: Result<ExportFilter, string>)
    ensures r == NormalizeOf(request, now)
  {
    hide Rfc3339.Parse, Rfc3339.Format, UtcBound, Less, CleanField, CleanFields, TrimSpace, ToLower;
    var format := ToLower(TrimSpace(request.format));
    if format != "" && format != "csv" {
      return Failure(FORMAT_INVALID);
    }
    var filters := request.filters;
    var values, clean := CleanValues(Fields(filters));
    FieldsAreSix(filters);
    if !clean {
      return Failure(FILTER_INVALID);
    }
    filters := filters.(event := values[0], objectKey := values[1], recordID := values[2], actorID := values[3],
                        roleKey := values[4], result := ToLower(values[5]));
    var pair := [filters.createdFrom, filters.createdTo];
    var bounds, ok := NormalizeBounds(pair);
    assert ok <==> UtcBound(pair[0]).Some? && UtcBound(pair[1]).Some?;
    if !ok {
      return Failure(RANGE_INVALID);
    }
    assert Some(bounds[0]) == UtcBound(pair[0]) && Some(bounds[1]) == UtcBound(pair[1]);
    filters := filters.(createdFrom := bounds[0], createdTo := bounds[1]);
    if filters.createdFrom != "" && filters.createdTo != "" && Less(filters.createdTo, filters.createdFrom) {
      return Failure(RANGE_INVALID);
    }
    var cutoff := Rfc3339.Format(now - RETENTION);
    if filters.createdFrom == "" || Less(filters.createdFrom, cutoff) {
      filters := filters.(createdFrom := cutoff);
    }
    return Success(filters);
  }

  // The normaliser's answer, field by field.
  lemma {:induction false} NormalizedInFull(request: ExportRequest, now: int)
    ensures var g, format := request.filters, ToLower(TrimSpace(request.format));
            var clean := (s: string) => TrimSpace(s) == "" || FilterValue(TrimSpace(s));
            var r := NormalizeOf(request, now);
            && (format != "" && format != "csv" <==> r == Failure("export_format_invalid"))
            && (r == Failure("export_filter_invalid") <==>
                  (format == "" || format == "csv") &&
                  !(clean(g.event) && clean(g.objectKey) && clean(g.recordID) && clean(g.actorID) && clean(g.roleKey) &&
                    clean(g.result)))
            && (r.Failure? ==> r.error in {"export_format_invalid", "export_filter_invalid",
                                            "export_time_range_invalid"})
            && (r.Success? ==>
                  && r.value.event == TrimSpace(g.event) && r.value.objectKey == TrimSpace(g.objectKey)
                  && r.value.recordID == TrimSpace(g.recordID) && r.value.actorID == TrimSpace(g.actorID)
                  && r.value.roleKey == TrimSpace(g.roleKey) && r.value.result == ToLower(TrimSpace(g.result))
                  && (TrimSpace(g.createdTo) == "" ==> r.value.createdTo == "")
                  && (TrimSpace(g.createdTo) != "" ==>
                        exists t :: Rfc3339.Parse(TrimSpace(g.createdTo)) == Some(t) &&
                                    r.value.createdTo == Rfc3339.Format(t))
                  && (TrimSpace(g.createdFrom) == "" ==>
                        r.value.createdFrom == Rfc3339.Format(now - 365 * 86_400 * 1_000_000_000))
                  && (TrimSpace(g.createdFrom) != "" ==>
                        exists t :: Rfc3339.Parse(TrimSpace(g.createdFrom)) == Some(t) &&
                                    (r.value.createdFrom == Rfc3339.Format(t) ||
                                     r.value.createdFrom == Rfc3339.Format(now - 365 * 86_400 * 1_000_000_000))))
  {
    hide Rfc3339.Parse, Rfc3339.Format, Less, FilterValue, TrimSpace, ToLower;
  }

  // ---------- the lower bound ----------

  // The request's own bounds, and the cutoff, fall in the years RFC 3339 can write.
  ghost predicate TimesWritable(request: ExportRequest, now: int) {
    var from, to := Rfc3339.Parse(TrimSpace(request.filters.createdFrom)),
      Rfc3339.Parse(TrimSpace(request.filters.createdTo));
    Rfc3339.Writable(now - RETENTION) && (from.Some? ==> Rfc3339.Writable(from.value)) &&
    (to.Some? ==> Rfc3339.Writable(to.value))
  }

  // Whole-second UTC text of an instant that RFC 3339 can write.
  ghost predicate WholeSecond(text: string, t: int) {
    Rfc3339.Writable(t) && text == Rfc3339.Format(t)
  }

  // The lower bound is never below the retention cutoff: not as text, and not in time.
  lemma {:induction false} LowerBoundIsRetained(request: ExportRequest, now: int)
    requires NormalizeOf(request, now).Success?
    ensures AtMost(Cutoff(now), NormalizeOf(request, now).value.createdFrom)
    ensures TimesWritable(request, now) ==>
              exists t :: WholeSecond(NormalizeOf(request, now).value.createdFrom, t) &&
                          (now - RETENTION) / Rfc3339.NANOS <= t / Rfc3339.NANOS
  {
    hide Rfc3339.Parse, Rfc3339.Format, Less, Rfc3339.Writable;
    var f := NormalizeOf(request, now).value;
    var from := UtcBound(request.filters.createdFrom).value;
    LessTotal(from, Cutoff(now));
    if TimesWritable(request, now) {
      var cut := now - RETENTION;
      if f.createdFrom == Cutoff(now) {
        assert WholeSecond(f.createdFrom, cut);
      } else {
        var t := Rfc3339.Parse(TrimSpace(request.filters.createdFrom)).value;
        assert WholeSecond(f.createdFrom, t);
        Rfc3339.FormatOrder(t, cut);
      }
    }
  }

  // ---------- normalising twice ----------

  lemma {:induction false} LowerKeepsFilterValue(s: string)
    requires FilterValue(s)
    ensures FilterValue(ToLower(s)) && Trimmed(s) && Trimmed(ToLower(s))
  {
    assert FilterChar(s[|s| - 1]) && FilterChar(ToLower(s)[|s| - 1]);
    forall i | 0 <= i < |s|
      ensures FilterChar(ToLower(s)[i])
    {
      assert FilterChar(s[i]);
    }
  }

  lemma {:induction false} CleanTwice(value: string)
    requires CleanField(value)
    ensures CleanField(TrimSpace(value)) && TrimSpace(TrimSpace(value)) == TrimSpace(value)
    ensures CleanField(ToLower(TrimSpace(value)))
    ensures ToLower(TrimSpace(ToLower(TrimSpace(value)))) == ToLower(TrimSpace(value))
  {
    var v := TrimSpace(value);
    LowerTwice(v);
    if v != "" {
      LowerKeepsFilterValue(v);
      assert TrimSpace(ToLower(v)) == ToLower(v);
    } else {
      assert ToLower(v) == "";
    }
  }

  // A bound in the normaliser's own text is kept as it is, if it can be read back at all.
  lemma {:induction false} BoundTwice(t: int)
    ensures var text := Rfc3339.Format(t);
            text != "" && UtcBound(text) == if Rfc3339.Writable(t) then Some(text) else None
    ensures Rfc3339.Parse(Rfc3339.Format(t)).Some? <==> Rfc3339.Writable(t)
  {
    hide Rfc3339.Parse, Rfc3339.Format, Rfc3339.Writable, TrimSpace;
    Rfc3339.FormatIsTrimmed(t);
    if Rfc3339.Writable(t) {
      Rfc3339.ParseFormat(t);
      Rfc3339.FormatCutsFraction(t);
    } else {
      Rfc3339.UnwritableIsUnreadable(t);
    }
  }

  // No text lies between a lower bound and an upper bound below it.
  lemma {:induction false} EmptyRange(from: string, to: string, created: string)
    requires Less(to, from)
    ensures !(AtMost(from, created) && AtMost(created, to))
  {
    if AtMost(from, created) && AtMost(created, to) {
      AtMostTransitive(from, created, to);
      LessAsymmetric(to, from);
    }
  }

  // Every normalised bound is the text of some instant.
  lemma {:induction false} BoundsAreTexts(request: ExportRequest, now: int) returns (low: int, high: int)
    requires NormalizeOf(request, now).Success?
    ensures var f := NormalizeOf(request, now).value;
            f.createdFrom == Rfc3339.Format(low) && (f.createdTo == "" || f.createdTo == Rfc3339.Format(high))
  {
    hide Rfc3339.Parse, Rfc3339.Format, Less, FilterValue, TrimSpace, ToLower;
    var f, g := NormalizeOf(request, now).value, request.filters;
    low := if f.createdFrom == Cutoff(now) then now - RETENTION else Rfc3339.Parse(TrimSpace(g.createdFrom)).value;
    high := if f.createdTo == "" then 0 else Rfc3339.Parse(TrimSpace(g.createdTo)).value;
  }

  // Normalising the result again at the same instant changes nothing if its bounds can be read and the
  // upper one does not precede the cutoff. Otherwise it is refused; a range that ends before the cutoff
  // is one no event time at all satisfies.
  lemma {:induction false} NormalizingTwice(request: ExportRequest, now: int)
    requires NormalizeOf(request, now).Success?
    ensures var f := NormalizeOf(request, now).value;
            var again := NormalizeOf(request.(filters := f), now);
            var late := f.createdTo != "" && Less(f.createdTo, Cutoff(now));
            var readable := Rfc3339.Parse(f.createdFrom).Some? &&
              (f.createdTo == "" || Rfc3339.Parse(f.createdTo).Some?);
            && again == (if readable && !late then Success(f) else Failure(RANGE_INVALID))
            && (late ==> forall created :: !(AtMost(f.createdFrom, created) && AtMost(created, f.createdTo)))
  {
    hide Rfc3339.Parse, Rfc3339.Format, Less, FilterValue, TrimSpace, ToLower, Rfc3339.Writable;
    var f := NormalizeOf(request, now).value;
    var g := request.filters;
    CleanTwice(g.event);
    CleanTwice(g.objectKey);
    CleanTwice(g.recordID);
    CleanTwice(g.actorID);
    CleanTwice(g.roleKey);
    CleanTwice(g.result);
    var low, high := BoundsAreTexts(request, now);
    BoundTwice(low);
    BoundTwice(high);
    LowerBoundIsRetained(request, now);
    LessAsymmetric(Cutoff(now), f.createdFrom);
    LessAsymmetric(f.createdFrom, Cutoff(now));
    LateMeansBelowCutoff(request, now);
    if f.createdTo != "" && Less(f.createdTo, Cutoff(now)) {
      forall created
        ensures !(AtMost(f.createdFrom, created) && AtMost(created, f.createdTo))
      {
        EmptyRange(f.createdFrom, f.createdTo, created);
      }
    }
  }

  // The normalised bounds cross exactly when the upper one precedes the cutoff.
  lemma {:induction false} LateMeansBelowCutoff(request: ExportRequest, now: int)
    requires NormalizeOf(request, now).Success?
    ensures var f := NormalizeOf(request, now).value;
            f.createdTo != "" ==> (Less(f.createdTo, f.createdFrom) <==> Less(f.createdTo, Cutoff(now)))
  {
    hide Rfc3339.Parse, Rfc3339.Format, Less, FilterValue, TrimSpace, ToLower;
    var f := NormalizeOf(request, now).value;
    var from := UtcBound(request.filters.createdFrom).value;
    if f.createdTo != "" && f.createdFrom != Cutoff(now) {
      assert f.createdFrom == from && from != "" && !Less(f.createdTo, from) && !Less(from, Cutoff(now));
      LessTotal(f.createdTo, from);
      LessTotal(from, Cutoff(now));
      if Less(f.createdTo, Cutoff(now)) {
        AtMostTransitive(from, f.createdTo, Cutoff(now));
      }
    }
  }

  // ---------- comparing texts instead of times ----------

  // A request whose bounds are these two instants, accepted but for its range.
  ghost predicate Bounds(request: ExportRequest, from: int, to: int) {
    && FormatAccepted(request.format) && CleanFields(request.filters)
    && Rfc3339.Parse(TrimSpace(request.filters.createdFrom)) == Some(from)
    && Rfc3339.Parse(TrimSpace(request.filters.createdTo)) == Some(to)
  }

  lemma {:induction false} BlankIsUnreadable(s: string)
    requires Rfc3339.Parse(s).Some?
    ensures s != ""
  {
  }

  lemma {:induction false} BoundsNormalized(request: ExportRequest, from: int, to: int, now: int)
    requires Bounds(request, from, to)
    ensures UtcBound(request.filters.createdFrom) == Some(Rfc3339.Format(from)) && Rfc3339.Format(from) != ""
    ensures UtcBound(request.filters.createdTo) == Some(Rfc3339.Format(to)) && Rfc3339.Format(to) != ""
  {
    hide Rfc3339.Parse, Rfc3339.Format, TrimSpace;
    BlankIsUnreadable(TrimSpace(request.filters.createdFrom));
    BlankIsUnreadable(TrimSpace(request.filters.createdTo));
    BoundTwice(from);
    BoundTwice(to);
  }

  // The range check compares texts. It refuses exactly the ranges that end before they begin, unless one
  // bound is in year 10000 of UTC and the other in the years 1001 to 9999: then it is always wrong.
  lemma {:induction false} RangeCheckExactly(request: ExportRequest, from: int, to: int, now: int)
    requires Bounds(request, from, to)
    ensures (NormalizeOf(request, now).Failure? <==> to / Rfc3339.NANOS < from / Rfc3339.NANOS) <==>
            !Rfc3339.Misordered(from, to)
  {
    hide Rfc3339.Parse, Rfc3339.Format, TrimSpace, Less, CleanFields, Rfc3339.Readable, Rfc3339.Misordered;
    BoundsNormalized(request, from, to, now);
    Rfc3339.ParsedIsReadable(TrimSpace(request.filters.createdFrom));
    Rfc3339.ParsedIsReadable(TrimSpace(request.filters.createdTo));
    Rfc3339.TextOrderExactly(to, from);
    MisorderedBothWays(from, to);
  }

  lemma {:induction false} MisorderedBothWays(s: int, t: int)
    ensures Rfc3339.Misordered(s, t) <==> Rfc3339.Misordered(t, s)
  {
  }

  // So does the choice of the lower bound: it is the later of the request's own and the cutoff, unless
  // the two are misordered in the same way.
  lemma {:induction false} LowerBoundExactly(request: ExportRequest, from: int, now: int)
    requires NormalizeOf(request, now).Success? && Rfc3339.Readable(now - RETENTION)
    requires Rfc3339.Parse(TrimSpace(request.filters.createdFrom)) == Some(from)
    ensures var early := from / Rfc3339.NANOS < (now - RETENTION) / Rfc3339.NANOS;
            var low := if early then Cutoff(now) else Rfc3339.Format(from);
            NormalizeOf(request, now).value.createdFrom == low <==> !Rfc3339.Misordered(from, now - RETENTION)
  {
    hide Rfc3339.Parse, Rfc3339.Format, TrimSpace, Less, CleanFields, Rfc3339.Readable, Rfc3339.Misordered;
    BlankIsUnreadable(TrimSpace(request.filters.createdFrom));
    BoundTwice(from);
    Rfc3339.ParsedIsReadable(TrimSpace(request.filters.createdFrom));
    Rfc3339.TextOrderExactly(from, now - RETENTION);
    if Rfc3339.Misordered(from, now - RETENTION) {
      MisorderedTextsDiffer(from, now - RETENTION);
    }
  }

  lemma {:induction false} MisorderedTextsDiffer(s: int, t: int)
    requires Rfc3339.Misordered(s, t)
    ensures Rfc3339.Format(s) != Rfc3339.Format(t)
  {
    Rfc3339.MisorderedFormats(s, t);
    LessIrreflexive(Rfc3339.Format(s));
  }

  // A request that meets the limit: from the year 2024 to the last second of 9999 one hour west of UTC.
  // The range is in order and refused; the same text as a lower bound alone is silently replaced by the
  // cutoff, which is earlier.
  lemma {:induction false} LateYearIsRefused(now: int)
    requires 2000 <= Rfc3339.YearAt(now - RETENTION) <= 2999
    ensures var blank := ExportFilter("", "", "", "", "", "", "", "");
            var late := "9999-12-31T23:59:59-01:00";
            var from, to := Rfc3339.Parse("2024-01-01T00:00:00Z"), Rfc3339.Parse(late);
            && from.Some? && to.Some? && from.value < to.value && now - RETENTION < to.value
            && NormalizeOf(ExportRequest("csv", blank.(createdFrom := "2024-01-01T00:00:00Z", createdTo := late)),
                           now) ==
               Failure(RANGE_INVALID)
            && NormalizeOf(ExportRequest("csv", blank.(createdFrom := late)), now) ==
               Success(blank.(createdFrom := Cutoff(now)))
  {
    hide Rfc3339.Parse, Rfc3339.Format, Less, Rfc3339.Misordered, Rfc3339.Readable, Rfc3339.YearAt, TrimSpace;
    var blank := ExportFilter("", "", "", "", "", "", "", "");
    var early, late := "2024-01-01T00:00:00Z", "9999-12-31T23:59:59-01:00";
    Rfc3339.ExampleTimes(now - RETENTION);
    assert Trimmed(early) && Trimmed(late);
    var from, to := Rfc3339.Parse(early).value, Rfc3339.Parse(late).value;
    var request := ExportRequest("csv", blank.(createdFrom := early, createdTo := late));
    AcceptedCsv();
    assert Bounds(request, from, to);
    RangeCheckExactly(request, from, to, now);
    BoundsNormalized(request, from, to, now);
    Rfc3339.TextOrderExactly(to, now - RETENTION);
  }

  lemma {:induction false} AcceptedCsv()
    ensures FormatAccepted("csv") && TrimSpace("") == "" && CleanField("") && ToLower("") == ""
  {
    assert Trimmed("csv") && ToLower("csv") == "csv";
  }
}
