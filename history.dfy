/**
 * `get_daily_cn`: the national history records turned into five parallel
 * columns (confirmed, deaths, suspected, cured, dates), with the suspected
 * column back-filled to the common length.
 */
module History {
  import opened Wrappers
  import opened Values
  import Text
  import Collect

  /** A calendar day. */
  datatype Date = Date(year: int, month: int, day: int)

  /** The script reads every "M.D" date as a day of this year. */
  const Year: int := 2020

  /** Days of each month of 2020, a leap year. */
  function DaysIn(month: int): int
    requires 1 <= month <= 12
  {
    if month == 2 then 29
    else if month == 4 || month == 6 || month == 9 || month == 11 then 30
    else 31
  }

  /** What `%m` and `%d` of `strptime` accept: one or two digits whose value lies in `lo..hi`. */
  function ParseField(s: string, lo: int, hi: int): Result<int, Error> {
    if IsField(s) && lo <= DigitsValue(s) <= hi then Success(DigitsValue(s))
    else Failure(ValueError)
  }

  /** A number in range is read from its plain digits and, below 10, from its zero-padded form. */
  lemma ParseFieldForms(n: nat, lo: int, hi: int)
    requires lo <= n <= hi && n < 100
    ensures ParseField(ShowNat(n), lo, hi) == Success(n)
    ensures n < 10 ==> ParseField("0" + ShowNat(n), lo, hi) == Success(n)
  {
    DigitsOfShowNat(n);
    if n < 10 {
      var z := "0" + ShowNat(n);
      assert z[..1] == "0" && z[..1][..0] == [];
      assert DigitsValue(z[..1]) == 0;
      assert DigitsValue(z) == n;
    }
  }

  /** Those two forms are the only texts a field is read from. */
  lemma ParseFieldOnlyForms(s: string, lo: int, hi: int)
    requires ParseField(s, lo, hi).Success?
    ensures var n := ParseField(s, lo, hi).value;
      lo <= n <= hi && (s == ShowNat(n) || (n < 10 && s == "0" + ShowNat(n)))
  {
    var n := DigitsValue(s);
    if |s| == 1 {
      assert s[..0] == [] && DigitsValue(s[..0]) == 0;
      assert n == DigitsValue(s[..0]) * 10 + (s[0] as int - '0' as int);
      assert s == [DigitChar(n)];
    } else {
      var h := s[..1];
      assert h == [s[0]] && h[..0] == [];
      assert DigitsValue(h) == s[0] as int - '0' as int;
      assert n == DigitsValue(h) * 10 + (s[1] as int - '0' as int);
      if s[0] != '0' {
        assert n / 10 == DigitsValue(h) && n % 10 == s[1] as int - '0' as int;
        assert h == [DigitChar(n / 10)];
        assert s == ShowNat(n / 10) + [DigitChar(n % 10)];
      } else {
        assert n == s[1] as int - '0' as int;
        assert s == "0" + [DigitChar(n)];
      }
    }
  }

  /** One or two ASCII digits, as `%m` and `%d` read them (a leading zero included). */
  predicate IsField(s: string) {
    1 <= |s| <= 2 && AllDigits(s)
  }

  /**
   * `month, day = v.split('.')` followed by
   * `datetime.strptime('2020-%s-%s' % (month, day), '%Y-%m-%d')`.
   */
  function ParseDate(v: Value): (r: Result<Date, Error>)
  {
    match v
    case Str(s) =>
      var parts := Text.Split(s, '.');
      if |parts| != 2 then Failure(ValueError)
      else
        var month :- ParseField(parts[0], 1, 12);
        var day :- ParseField(parts[1], 1, 31);
        if day <= DaysIn(month) then Success(Date(Year, month, day)) else Failure(ValueError)
    case _ => Failure(AttributeError)
  }

  /**
   * Only a string with exactly one '.' can be a date, and a date is a real
   * day of 2020; anything else raises.
   */
  lemma ParseDateSpec(v: Value)
    ensures !v.Str? ==> ParseDate(v) == Failure(AttributeError)
    ensures ParseDate(v).Failure? && v.Str? ==> ParseDate(v).error == ValueError
    ensures ParseDate(v).Success? ==> v.Str? && Text.Occurrences(v.s, '.') == 1
    ensures ParseDate(v).Success? ==>
      var date := ParseDate(v).value;
      date.year == Year && 1 <= date.month <= 12 && 1 <= date.day <= DaysIn(date.month)
    ensures v.Str? ==>
      var p := Text.Split(v.s, '.');
      && (ParseDate(v).Success? <==>
            && |p| == 2 && IsField(p[0]) && IsField(p[1])
            && 1 <= DigitsValue(p[0]) <= 12 && 1 <= DigitsValue(p[1]) <= DaysIn(DigitsValue(p[0])))
      && (ParseDate(v).Success? ==> ParseDate(v).value == Date(Year, DigitsValue(p[0]), DigitsValue(p[1])))
  {
    if v.Str? {
      Text.SplitCount(v.s, '.');
    }
  }

  /** A date written as "M.D" reads back as that day of 2020. */
  lemma ParseDateOfShown(month: nat, day: nat)
    requires 1 <= month <= 12 && 1 <= day <= DaysIn(month)
    ensures ParseDate(Str(ShowNat(month) + "." + ShowNat(day))) == Success(Date(Year, month, day))
  {
    var m, d := ShowNat(month), ShowNat(day);
    assert '.' !in m && '.' !in d by {
      assert forall k :: 0 <= k < |m| ==> IsDigit(m[k]);
      assert forall k :: 0 <= k < |d| ==> IsDigit(d[k]);
    }
    Text.SplitJoin([m, d], '.');
    assert Text.Join([m, d], '.') == m + "." + d;
    DigitsOfShowNat(month);
    DigitsOfShowNat(day);
  }

  /** One history record as the loop body reads it; `suspected` is kept raw. */
  datatype Row = Row(date: Date, confirmed: int, deaths: int, cured: int, suspected: Value)

  /** The body of the record loop for one record, in the order the script evaluates it. */
  function ParseRow(item: Record): Result<Row, Error> {
    if "date" !in item then Failure(KeyError("date"))
    else
      var date :- ParseDate(item["date"]);
      var confirmed :- ToInt(Get(item, "cn_conNum", Int(0)));
      var deaths :- ToInt(Get(item, "cn_deathNum", Int(0)));
      var cured :- ToInt(Get(item, "cn_cureNum", Int(0)));
      Success(Row(date, confirmed, deaths, cured, Get(item, "cn_susNum", Int(0))))
  }

  /** A key that is absent reads as 0; only an explicit `null` suspected count is marked for dropping. */
  lemma MissingKeysReadAsZero(item: Record, row: Row)
    requires ParseRow(item) == Success(row)
    ensures "cn_conNum" !in item ==> row.confirmed == 0
    ensures "cn_deathNum" !in item ==> row.deaths == 0
    ensures "cn_cureNum" !in item ==> row.cured == 0
    ensures "cn_susNum" !in item ==> row.suspected == Int(0)
    ensures row.suspected == Null <==> "cn_susNum" in item && item["cn_susNum"] == Null
  {
  }

  /** The record loop: every row, or the exception of the first record that fails. */
  function ParseRows(items: seq<Record>): Result<seq<Row>, Error> {
    Collect.MapResult(ParseRow, items)
  }

  function Confirmed(rows: seq<Row>): seq<int> { seq(|rows|, i requires 0 <= i < |rows| => rows[i].confirmed) }
  function Deaths(rows: seq<Row>): seq<int> { seq(|rows|, i requires 0 <= i < |rows| => rows[i].deaths) }
  function Cured(rows: seq<Row>): seq<int> { seq(|rows|, i requires 0 <= i < |rows| => rows[i].cured) }
  function Suspects(rows: seq<Row>): seq<Value> { seq(|rows|, i requires 0 <= i < |rows| => rows[i].suspected) }
  function Dates(rows: seq<Row>): seq<Date> { seq(|rows|, i requires 0 <= i < |rows| => rows[i].date) }

  /** The raw suspected value of every record, 0 where the key is absent. */
  function RawSuspects(items: seq<Record>): seq<Value> {
    seq(|items|, i requires 0 <= i < |items| => Get(items[i], "cn_susNum", Int(0)))
  }

  /** `[x for x in vs if x is not None]` */
  function NonNull(vs: seq<Value>): (r: seq<Value>)
    ensures |r| <= |vs|
    ensures Null !in r
  {
    if vs == [] then []
    else NonNull(vs[..|vs| - 1]) + (if vs[|vs| - 1] == Null then [] else [vs[|vs| - 1]])
  }

  /** The filter keeps the order: it distributes over concatenation. */
  lemma {:induction false} NonNullAppend(a: seq<Value>, b: seq<Value>)
    ensures NonNull(a + b) == NonNull(a) + NonNull(b)
  {
    if b != [] {
      var n := |b| - 1;
      assert (a + b)[..|a + b| - 1] == a + b[..n];
      NonNullAppend(a, b[..n]);
    } else {
      assert a + b == a;
    }
  }

  /** The filter drops every `null` and keeps every other value as often as it occurs. */
  lemma {:induction false} NonNullCounts(vs: seq<Value>)
    ensures multiset(NonNull(vs)) == multiset(vs)[Null := 0]
  {
    if vs != [] {
      var n := |vs| - 1;
      var init, last := vs[..n], vs[n];
      NonNullCounts(init);
      assert vs == init + [last];
      var tail := if last == Null then [] else [last];
      assert NonNull(vs) == NonNull(init) + tail;
      assert multiset(NonNull(vs)) == multiset(NonNull(init)) + multiset(tail);
      assert multiset(vs) == multiset(init) + multiset{last};
      DropNullStep(multiset(init), last);
    }
  }

  /** Adding one value and then dropping the `null`s adds the value unless it is `null`. */
  lemma DropNullStep(m: multiset<Value>, last: Value)
    ensures (m + multiset{last})[Null := 0] == m[Null := 0] + multiset(if last == Null then [] else [last])
  {
  }

  /** `n` copies of `v`. */
  function Repeat(v: Value, n: nat): seq<Value> {
    seq(n, _ => v)
  }

  /** `[int(x) for x in vs]`: every conversion, or the exception of the first that fails. */
  function ToInts(vs: seq<Value>): Result<seq<int>, Error> {
    Collect.MapResult(ToInt, vs)
  }

  /** The five columns `get_daily_cn` returns. */
  datatype Series = Series(confirmed: seq<int>, deaths: seq<int>, suspected: seq<int>, cured: seq<int>, dates: seq<Date>)

  /**
   * What `get_daily_cn` computes from the history list: the columns of the
   * rows, and the non-null suspected values followed by as many 1s as there
   * are missing ones.
   */
  function DailySeries(items: seq<Record>): Result<Series, Error> {
    var rows :- ParseRows(items);
    var kept := NonNull(Suspects(rows));
    var suspected :- ToInts(kept + Repeat(Int(1), |rows| - |kept|));
    Success(Series(Confirmed(rows), Deaths(rows), suspected, Cured(rows), Dates(rows)))
  }

  /** The suspected values the rows carry are those of the records. */
  lemma SuspectsOfRows(items: seq<Record>, rows: seq<Row>)
    requires ParseRows(items) == Success(rows)
    ensures Suspects(rows) == RawSuspects(items)
  {
    Collect.MapResultValues(ParseRow, items);
    forall i | 0 <= i < |items|
      ensures Suspects(rows)[i] == RawSuspects(items)[i]
    {
      assert ParseRow(items[i]) == Success(rows[i]);
    }
  }

  /** For N records all five columns have length N. */
  lemma SeriesLengths(items: seq<Record>, s: Series)
    requires DailySeries(items) == Success(s)
    ensures |s.confirmed| == |items| && |s.deaths| == |items| && |s.suspected| == |items|
    ensures |s.cured| == |items| && |s.dates| == |items|
  {
  }

  /** Column i of confirmed, deaths, cured and dates is record i, read with default 0. */
  lemma SeriesColumns(items: seq<Record>, s: Series, i: int)
    requires DailySeries(items) == Success(s)
    requires 0 <= i < |items|
    ensures "date" in items[i] && ParseDate(items[i]["date"]) == Success(s.dates[i])
    ensures s.dates[i].year == Year
    ensures ToInt(Get(items[i], "cn_conNum", Int(0))) == Success(s.confirmed[i])
    ensures ToInt(Get(items[i], "cn_deathNum", Int(0))) == Success(s.deaths[i])
    ensures ToInt(Get(items[i], "cn_cureNum", Int(0))) == Success(s.cured[i])
  {
    var rows := ParseRows(items).value;
    Collect.MapResultValues(ParseRow, items);
    assert ParseRow(items[i]) == Success(rows[i]);
    ParseDateSpec(items[i]["date"]);
  }

  /** Converting a list padded with 1s: the converted list, then 1s. */
  lemma PaddedValues(kept: seq<Value>, m: nat, ints: seq<int>)
    requires ToInts(kept + Repeat(Int(1), m)) == Success(ints)
    ensures |ints| == |kept| + m
    ensures forall i :: 0 <= i < |kept| ==> ToInt(kept[i]) == Success(ints[i])
    ensures forall i :: |kept| <= i < |kept| + m ==> ints[i] == 1
  {
    var padded := kept + Repeat(Int(1), m);
    Collect.MapResultValues(ToInt, padded);
    forall i | 0 <= i < |kept|
      ensures ToInt(kept[i]) == Success(ints[i])
    {
      assert padded[i] == kept[i];
    }
    forall i | |kept| <= i < |kept| + m
      ensures ints[i] == 1
    {
      assert padded[i] == Int(1);
    }
  }

  /**
   * The suspected column is the non-null raw values, in their order, then
   * 1s up to the common length: the padding goes at the end, not where the
   * `null`s were.
   */
  lemma SuspectedPadding(items: seq<Record>, s: Series)
    requires DailySeries(items) == Success(s)
    ensures var kept := NonNull(RawSuspects(items));
      && |kept| <= |s.suspected| == |items|
      && (forall i :: 0 <= i < |kept| ==> ToInt(kept[i]) == Success(s.suspected[i]))
      && (forall i :: |kept| <= i < |items| ==> s.suspected[i] == 1)
  {
    var rows := ParseRows(items).value;
    SuspectsOfRows(items, rows);
    var kept := NonNull(RawSuspects(items));
    assert ToInts(kept + Repeat(Int(1), |rows| - |kept|)) == Success(s.suspected);
    PaddedValues(kept, |rows| - |kept|, s.suspected);
  }

  /** Padding with 1s never makes the conversion fail. */
  lemma PaddingConverts(kept: seq<Value>, m: nat)
    ensures ToInts(kept + Repeat(Int(1), m)).Success? <==> forall v :: v in kept ==> ToInt(v).Success?
  {
    var padded := kept + Repeat(Int(1), m);
    Collect.MapResultSucceeds(ToInt, padded);
    if forall v :: v in kept ==> ToInt(v).Success? {
      forall i | 0 <= i < |padded|
        ensures ToInt(padded[i]).Success?
      {
        if i < |kept| {
          assert padded[i] == kept[i] && kept[i] in kept;
        }
      }
    } else {
      var v :| v in kept && ToInt(v).Failure?;
      var i :| 0 <= i < |kept| && kept[i] == v;
      assert padded[i] == v;
    }
  }

  /** The extraction fails exactly when a record fails or a kept suspected value is not an integer. */
  lemma SeriesSucceeds(items: seq<Record>)
    ensures DailySeries(items).Success? <==>
      && (forall i :: 0 <= i < |items| ==> ParseRow(items[i]).Success?)
      && (forall v :: v in NonNull(RawSuspects(items)) ==> ToInt(v).Success?)
  {
    var rows := ParseRows(items);
    Collect.MapResultSucceeds(ParseRow, items);
    if rows.Success? {
      SuspectsOfRows(items, rows.value);
      var kept := NonNull(RawSuspects(items));
      PaddingConverts(kept, |items| - |kept|);
      assert DailySeries(items).Success? == ToInts(kept + Repeat(Int(1), |items| - |kept|)).Success?;
    } else {
      assert DailySeries(items).Failure?;
    }
  }

  /** A record that fails after records that all parse decides the exception of the whole extraction. */
  lemma FirstFailure(items: seq<Record>, i: int, e: Error)
    requires 0 <= i < |items|
    requires ParseRows(items[..i]).Success?
    requires ParseRow(items[i]) == Failure(e)
    ensures ParseRows(items) == Failure(e)
    ensures DailySeries(items) == Failure(e)
  {
    Collect.MapResultFailure(ParseRow, items, i);
  }

  /** One more record that parses: the rows grow by its row, each column by its field. */
  lemma RowsStep(items: seq<Record>, i: int, rows: seq<Row>, row: Row)
    requires 0 <= i < |items|
    requires ParseRows(items[..i]) == Success(rows)
    requires ParseRow(items[i]) == Success(row)
    ensures ParseRows(items[..i + 1]) == Success(rows + [row])
    ensures Confirmed(rows + [row]) == Confirmed(rows) + [row.confirmed]
    ensures Deaths(rows + [row]) == Deaths(rows) + [row.deaths]
    ensures Cured(rows + [row]) == Cured(rows) + [row.cured]
    ensures Suspects(rows + [row]) == Suspects(rows) + [row.suspected]
    ensures Dates(rows + [row]) == Dates(rows) + [row.date]
  {
    Collect.MapResultStep(ParseRow, items, i, rows, row);
  }

  /**
   * The record loop and the padding loop of `get_daily_cn`: five lists grown
   * one record at a time, then the filtered suspected list padded with 1s.
   */
  method GetDailyCn(items: seq<Record>) returns (r: Result<Series, Error>)
    ensures r == DailySeries(items)
  {
    var confirmed: seq<int> := [];
    var deaths: seq<int> := [];
    var cured: seq<int> := [];
    var suspectedRaw: seq<Value> := [];
    var dates: seq<Date> := [];
    ghost var rows: seq<Row> := [];
    var i := 0;
    while i < |items|
      invariant 0 <= i <= |items|
      invariant ParseRows(items[..i]) == Success(rows)
      invariant confirmed == Confirmed(rows) && deaths == Deaths(rows) && cured == Cured(rows)
      invariant suspectedRaw == Suspects(rows) && dates == Dates(rows)
    {
      var row := ParseRow(items[i]);
      if row.Failure? {
        FirstFailure(items, i, row.error);
        return Failure(row.error);
      }
      var x := row.value;
      dates := dates + [x.date];
      confirmed := confirmed + [x.confirmed];
      deaths := deaths + [x.deaths];
      cured := cured + [x.cured];
      suspectedRaw := suspectedRaw + [x.suspected];
      RowsStep(items, i, rows, x);
      rows := rows + [x];
      i := i + 1;
    }
    assert items[..i] == items;

    var suspected := NonNull(suspectedRaw);
    var padding := |confirmed| - |suspected|;
    var j := 0;
    while j < padding
      invariant 0 <= j <= padding
      invariant suspected == NonNull(suspectedRaw) + Repeat(Int(1), j)
    {
      suspected := suspected + [Int(1)];
      j := j + 1;
    }
    var ints := ToInts(suspected);
    if ints.Failure? {
      return Failure(ints.error);
    }
    r := Success(Series(confirmed, deaths, ints.value, cured, dates));
  }
}
