/** `LogFilter` and the two operations it drives, query and clear (log/backend.rs). */
module LogFilters {
  import opened Base
  import opened Strings
  import opened LogRing

  /** The limits that `clear_filtered` does not look at when it decides what to do. */
  datatype Span = Span(since: Option<nat>, before: Option<string>, after: Option<string>)

  datatype LogFilter = LogFilter(
    level: Option<Level>, spaceId: Option<string>, unit: Option<string>, category: Option<Category>,
    keyword: Option<string>, span: Span, limit: Option<nat>)

  /** String order: the first difference decides, a proper prefix comes first. */
  predicate Less(a: string, b: string) {
    if a == "" then b != ""
    else b != "" && (a[0] < b[0] || (a[0] == b[0] && Less(a[1..], b[1..])))
  }

  predicate InSpan(span: Span, r: Record) {
    && (span.since.Some? ==> r.seq_ > span.since.value)
    && (span.before.Some? ==> !Less(span.before.value, r.text.timestamp))
    && (span.after.Some? ==> !Less(r.text.timestamp, span.after.value))
  }

  /** `lower` is the conversion to lower case. */
  predicate Matches(f: LogFilter, r: Record, lower: string -> string) {
    && (f.level.Some? ==> r.level == f.level.value)
    && (f.spaceId.Some? ==> r.spaceId == f.spaceId)
    && (f.unit.Some? ==> Contains(r.text.unit, f.unit.value))
    && (f.category.Some? ==> r.text.category == f.category.value)
    && (f.keyword.Some? ==>
          || Contains(lower(r.text.message), lower(f.keyword.value))
          || Contains(lower(r.text.target), lower(f.keyword.value)))
    && InSpan(f.span, r)
  }

  function Matched(buffer: seq<Record>, f: LogFilter, lower: string -> string): seq<Record> {
    if buffer == [] then []
    else
      var r, rest := buffer[|buffer| - 1], Matched(buffer[..|buffer| - 1], f, lower);
      if Matches(f, r, lower) then rest + [r] else rest
  }

  function Unmatched(buffer: seq<Record>, f: LogFilter, lower: string -> string): seq<Record> {
    if buffer == [] then []
    else
      var r, rest := buffer[|buffer| - 1], Unmatched(buffer[..|buffer| - 1], f, lower);
      if Matches(f, r, lower) then rest else rest + [r]
  }

  function QueryOf(buffer: seq<Record>, f: LogFilter, lower: string -> string): seq<Record> {
    var all := Matched(buffer, f, lower);
    if f.limit.Some? && f.limit.value < |all| then all[..f.limit.value] else all
  }

  /** One of the five fields that `clear_filtered` tests is set. */
  predicate Selects(f: LogFilter) {
    f.level.Some? || f.spaceId.Some? || f.unit.Some? || f.category.Some? || f.keyword.Some?
  }

  function Cleared(buffer: seq<Record>, f: LogFilter, lower: string -> string): seq<Record> {
    if Selects(f) then Unmatched(buffer, f, lower) else []
  }

  lemma MultisetSnoc(rs: seq<Record>, r: Record)
    ensures multiset(rs + [r]) == multiset(rs) + multiset{r}
  {
  }

  lemma {:induction false} MatchedAndUnmatched(buffer: seq<Record>, f: LogFilter, lower: string -> string)
    ensures multiset(Matched(buffer, f, lower)) + multiset(Unmatched(buffer, f, lower)) == multiset(buffer)
  {
    if buffer != [] {
      var init, r := buffer[..|buffer| - 1], buffer[|buffer| - 1];
      MatchedAndUnmatched(init, f, lower);
      assert buffer == init + [r];
      var m, u := Matched(init, f, lower), Unmatched(init, f, lower);
      MultisetSnoc(init, r);
      if Matches(f, r, lower) {
        MultisetSnoc(m, r);
        assert Matched(buffer, f, lower) == m + [r] && Unmatched(buffer, f, lower) == u;
      } else {
        MultisetSnoc(u, r);
        assert Matched(buffer, f, lower) == m && Unmatched(buffer, f, lower) == u + [r];
      }
    }
  }

  lemma {:induction false} NoneUnmatched(buffer: seq<Record>, f: LogFilter, lower: string -> string)
    ensures Unmatched(buffer, f, lower) == [] <==> forall i :: 0 <= i < |buffer| ==> Matches(f, buffer[i], lower)
  {
    if buffer != [] {
      NoneUnmatched(buffer[..|buffer| - 1], f, lower);
    }
  }

  /**
   Clearing takes away exactly what a query without limit would show, unless only
   the time span or the sequence number is set: then it takes away everything, and
   the two agree only if everything is in the span.
   */
  lemma ClearTakesWhatQueryShowsIff(buffer: seq<Record>, f: LogFilter, lower: string -> string)
    requires f.limit.None?
    ensures multiset(QueryOf(buffer, f, lower)) + multiset(Cleared(buffer, f, lower)) == multiset(buffer)
            <==> Selects(f) || forall i :: 0 <= i < |buffer| ==> InSpan(f.span, buffer[i])
  {
    MatchedAndUnmatched(buffer, f, lower);
    NoneUnmatched(buffer, f, lower);
    if !Selects(f) {
      assert forall r :: Matches(f, r, lower) <==> InSpan(f.span, r);
      var left := Unmatched(buffer, f, lower);
      if left != [] {
        assert left[0] in multiset(left);
      }
    }
  }

  /** A filter for the records after number 1 shows only the second of two, yet clears both. */
  lemma SpanAloneClearsAll(a: Record, b: Record, lower: string -> string)
    requires a.seq_ == 1 && b.seq_ == 2
    ensures
      var f := LogFilter(None, None, None, None, None, Span(Some(1), None, None), None);
      QueryOf([a, b], f, lower) == [b] && Cleared([a, b], f, lower) == []
  {
    var f := LogFilter(None, None, None, None, None, Span(Some(1), None, None), None);
    assert [a, b][..1] == [a] && [a][..0] == [];
    assert !Matches(f, a, lower) && Matches(f, b, lower);
    assert Matched([a], f, lower) == [];
  }

  /** The records that a filter selects, whatever their number and how many there are. */
  function Selection(f: LogFilter, lower: string -> string): Record -> bool {
    var anyNumber := f.(span := f.span.(since := None));
    (r: Record) => Matches(anyNumber, r, lower)
  }

  /** The filter of a poll: the same one, from the last number seen on. */
  function From(f: LogFilter, last: nat): LogFilter {
    f.(span := f.span.(since := Some(last)))
  }

  /** A query from the last number on is a poll, as long as its limit cannot cut anything off. */
  lemma QueryIsPoll(buffer: seq<Record>, f: LogFilter, last: nat, lower: string -> string)
    requires f.limit.Some? ==> |buffer| <= f.limit.value
    ensures QueryOf(buffer, From(f, last), lower) == Newer(buffer, last, Selection(f, lower))
  {
    MatchedIsNewer(buffer, f, last, lower);
    MatchedIsShorter(buffer, From(f, last), lower);
  }

  lemma {:induction false} MatchedIsNewer(buffer: seq<Record>, f: LogFilter, last: nat, lower: string -> string)
    ensures Matched(buffer, From(f, last), lower) == Newer(buffer, last, Selection(f, lower))
  {
    if buffer != [] {
      var init, r := buffer[..|buffer| - 1], buffer[|buffer| - 1];
      MatchedIsNewer(init, f, last, lower);
      assert Matches(From(f, last), r, lower) <==> r.seq_ > last && Selection(f, lower)(r);
    }
  }

  lemma {:induction false} MatchedIsShorter(buffer: seq<Record>, f: LogFilter, lower: string -> string)
    ensures |Matched(buffer, f, lower)| <= |buffer|
  {
    if buffer != [] {
      MatchedIsShorter(buffer[..|buffer| - 1], f, lower);
    }
  }

  /** What each field of a filter asks of a record. */
  predicate Asked(f: LogFilter, r: Record, lower: string -> string) {
    && (f.level == None || f.level == Some(r.level))
    && (f.spaceId == None || f.spaceId == r.spaceId)
    && (f.category == None || f.category == Some(r.text.category))
    && (match f.unit case None => true case Some(unit) => Contains(r.text.unit, unit))
    && (match f.keyword
        case None => true
        case Some(word) =>
          Contains(lower(r.text.message), lower(word)) || Contains(lower(r.text.target), lower(word)))
    && (match f.span.since case None => true case Some(n) => n < r.seq_)
    && (match f.span.before case None => true case Some(t) => r.text.timestamp == t || Less(r.text.timestamp, t))
    && (match f.span.after case None => true case Some(t) => r.text.timestamp == t || Less(t, r.text.timestamp))
  }

  /** Of two different strings exactly one is less than the other. */
  lemma {:induction false} LessIsTotal(a: string, b: string)
    ensures Less(a, b) <==> a != b && !Less(b, a)
  {
    if a != "" && b != "" {
      LessIsTotal(a[1..], b[1..]);
      assert a == [a[0]] + a[1..] && b == [b[0]] + b[1..];
    }
  }

  lemma MatchesIffAsked(f: LogFilter, r: Record, lower: string -> string)
    ensures Matches(f, r, lower) <==> Asked(f, r, lower)
  {
    if f.span.before.Some? {
      LessIsTotal(f.span.before.value, r.text.timestamp);
    }
    if f.span.after.Some? {
      LessIsTotal(r.text.timestamp, f.span.after.value);
    }
  }

  /**
   A query shows exactly the records that satisfy every field of the filter, in the
   order of the buffer, and of these no more than the first ones up to the limit; a
   clear leaves exactly the others, or none when it has no field to go by.
   */
  lemma QueryShowsExactly(buffer: seq<Record>, f: LogFilter, lower: string -> string)
    ensures
      var all := QueryOf(buffer, f.(limit := None), lower);
      && (forall r :: r in all <==> r in buffer && Asked(f, r, lower))
      && (Increasing(buffer) ==> Increasing(all))
      && QueryOf(buffer, f, lower) <= all
      && (match f.limit
          case None => QueryOf(buffer, f, lower) == all
          case Some(n) => |QueryOf(buffer, f, lower)| == if n < |all| then n else |all|)
    ensures
      var left := Cleared(buffer, f, lower);
      if f.level == None && f.spaceId == None && f.unit == None && f.category == None && f.keyword == None then left == []
      else (forall r :: r in left <==> r in buffer && !Asked(f, r, lower)) && (Increasing(buffer) ==> Increasing(left))
  {
    SameMatched(buffer, f, lower);
    MatchedFrom(buffer, f, lower);
    UnmatchedFrom(buffer, f, lower);
    forall r: Record
      ensures Matches(f, r, lower) <==> Asked(f, r, lower)
    {
      MatchesIffAsked(f, r, lower);
    }
  }

  /** The limit plays no part in matching. */
  lemma {:induction false} SameMatched(buffer: seq<Record>, f: LogFilter, lower: string -> string)
    ensures Matched(buffer, f.(limit := None), lower) == Matched(buffer, f, lower)
  {
    if buffer != [] {
      SameMatched(buffer[..|buffer| - 1], f, lower);
    }
  }

  lemma {:induction false} MatchedFrom(buffer: seq<Record>, f: LogFilter, lower: string -> string)
    ensures forall r :: r in Matched(buffer, f, lower) <==> r in buffer && Matches(f, r, lower)
    ensures Increasing(buffer) ==> Increasing(Matched(buffer, f, lower))
  {
    if buffer != [] {
      var init, r := buffer[..|buffer| - 1], buffer[|buffer| - 1];
      MatchedFrom(init, f, lower);
      assert buffer == init + [r];
      SnocOrdered(init, r, Matched(init, f, lower));
    }
  }

  lemma {:induction false} UnmatchedFrom(buffer: seq<Record>, f: LogFilter, lower: string -> string)
    ensures forall r :: r in Unmatched(buffer, f, lower) <==> r in buffer && !Matches(f, r, lower)
    ensures Increasing(buffer) ==> Increasing(Unmatched(buffer, f, lower))
  {
    if buffer != [] {
      var init, r := buffer[..|buffer| - 1], buffer[|buffer| - 1];
      UnmatchedFrom(init, f, lower);
      assert buffer == init + [r];
      SnocOrdered(init, r, Unmatched(init, f, lower));
    }
  }

  /** In the ring, clearing is keeping the numbers of the records that stay. */
  lemma ClearedIsRetain(buffer: seq<Record>, f: LogFilter, lower: string -> string)
    requires Unique(buffer)
    ensures exists keep :: Cleared(buffer, f, lower) == Filter(buffer, keep)
  {
    var keep := if Selects(f) then set r | r in buffer && !Matches(f, r, lower) :: r.seq_ else {};
    KeptIsFilter(buffer, f, lower, buffer, keep);
  }

  lemma {:induction false} KeptIsFilter(
    buffer: seq<Record>, f: LogFilter, lower: string -> string, all: seq<Record>, keep: set<nat>)
    requires buffer <= all && Unique(all)
    requires keep == if Selects(f) then set r | r in all && !Matches(f, r, lower) :: r.seq_ else {}
    ensures Filter(buffer, keep) == Cleared(buffer, f, lower)
  {
    if buffer != [] {
      var init, r := buffer[..|buffer| - 1], buffer[|buffer| - 1];
      KeptIsFilter(init, f, lower, all, keep);
      assert r == all[|buffer| - 1];
      assert r.seq_ in keep <==> Selects(f) && !Matches(f, r, lower);
    }
  }
}
