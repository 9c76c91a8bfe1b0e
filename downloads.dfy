/**
 * `downloads.py`: which monthly purchase reports to request from the
 * marketplace, and which of the listed report files to fetch into the local
 * report folder.
 *
 * Today's date is a parameter, the local folder is a set of file names, the
 * downloads page is a sequence of listing rows, and every HTTP POST is an
 * oracle that says whether the request succeeded.
 */
module Downloads {
  import opened Outcomes
  import opened Text
  import opened Seqs
  import opened Dates

  // ------------------------------------------------------ is_future_date

  /** A year or month as the caller passes it: an `int`, or the text of a form option. */
  datatype Field = Num(n: int) | Txt(s: string)

  /** `int(field)`: `None` where it raises `ValueError`. */
  function AsInt(f: Field): Option<int> {
    match f
    case Num(n) => Some(n)
    case Txt(s) => ParseInt(s)
  }

  /**
   * `is_future_date(year, month)`: the month lies after today's month. The
   * `or` and `and` short-circuit, so the month is converted only when the
   * year is today's year; a field `int()` rejects raises.
   */
  function IsFutureDate(year: Field, month: Field, today: Date): Result<bool, Field> {
    match AsInt(year)
    case None => Err(year)
    case Some(y) =>
      if y > today.year then Ok(true)
      else if y == today.year then
        match AsInt(month)
        case None => Err(month)
        case Some(m) => Ok(m > today.month)
      else Ok(false)
  }

  /** Months counted from year 0: the order in which months follow each other. */
  function MonthIndex(year: int, month: int): int { year * 12 + month }

  /** For real months, "future" means a later month than today's, counted on one line. */
  lemma IsFutureDateMeansLater(y: int, m: int, today: Date)
    requires 1 <= m <= 12 && 1 <= today.month <= 12
    ensures IsFutureDate(Num(y), Num(m), today) == Ok(MonthIndex(y, m) > MonthIndex(today.year, today.month))
  {
  }

  /** Today's month is never in the future, whether given as numbers or as their decimal text. */
  lemma CurrentMonthNotFuture(today: Date)
    ensures IsFutureDate(Num(today.year), Num(today.month), today) == Ok(false)
    ensures IsFutureDate(Txt(IntString(today.year)), Txt(IntString(today.month)), today) == Ok(false)
  {
    TextFieldsRead(today.year, today.month, today);
  }

  /** A year and month written as decimal text are judged as the numbers themselves. */
  lemma TextFieldsRead(y: int, m: int, today: Date)
    ensures IsFutureDate(Txt(IntString(y)), Txt(IntString(m)), today) == IsFutureDate(Num(y), Num(m), today)
  {
    ParseIntString(y);
    ParseIntString(m);
  }

  /** Only the year is read when it differs from today's: the month may be anything, even malformed. */
  lemma OtherYearsIgnoreMonth(y: int, month: Field, today: Date)
    requires y != today.year
    ensures IsFutureDate(Num(y), month, today) == Ok(y > today.year)
  {
  }

  // --------------------------------------------------- download_reports

  /** Python truthiness of an optional `int`: `None` and `0` are false. */
  predicate Truthy(x: Option<int>) { x.Some? && x.value != 0 }

  /** The verdict on the arguments before anything is fetched. */
  datatype Check = Proceed | Unpaired | FutureMonth

  /**
   * Exit with status 1 when exactly one of year and month is given (by
   * truthiness), or when the given month lies in the future.
   */
  function CheckArguments(year: Option<int>, month: Option<int>, today: Date): Check {
    if (Truthy(year) && !Truthy(month)) || (Truthy(month) && !Truthy(year)) then Unpaired
    else if year.Some? && month.Some? && IsFutureDate(Num(year.value), Num(month.value), today) == Ok(true) then FutureMonth
    else Proceed
  }

  /**
   * The arguments are refused exactly when one of year and month is set
   * without the other, or when both are given and name a month after today's.
   */
  lemma CheckArgumentsSpec(year: Option<int>, month: Option<int>, today: Date)
    requires 1 <= today.month <= 12
    ensures CheckArguments(year, month, today) == Unpaired <==> Truthy(year) != Truthy(month)
    ensures CheckArguments(year, month, today) == FutureMonth <==>
      && Truthy(year) == Truthy(month) && year.Some? && month.Some?
      && (year.value > today.year || (year.value == today.year && month.value > today.month))
    ensures CheckArguments(year, month, today) == FutureMonth && 1 <= month.value <= 12 ==>
      MonthIndex(year.value, month.value) > MonthIndex(today.year, today.month)
  {
  }

  /** A report form of the downloads page: its HTML, its hidden fields and its button text. */
  datatype ListingRow = ListingRow(form: string, token: string, idRequest: string, caption: string)

  /** The file name a row offers: the button text, stripped. */
  function Filename(row: ListingRow): string { Strip(row.caption) }

  const Marker := "-byPurchaseDate-"

  /**
   * `map(int, filename.split("-byPurchaseDate-")[1].split("-")[:2])`
   * unpacked into year and month: `None` where that raises, when the marker
   * is missing, fewer than two fields follow it or a field is no integer.
   */
  function FileYearMonth(filename: string): Option<(int, int)> {
    var parts := SplitOn(filename, Marker);
    if |parts| < 2 then None
    else
      var fields := SplitOn(parts[1], "-");
      if |fields| < 2 then None
      else
        match ParseInt(fields[0])
        case None => None
        case Some(y) =>
          match ParseInt(fields[1])
          case None => None
          case Some(m) => Some((y, m))
  }

  /** A name without the marker gives no year and month. */
  lemma NoMarkerNoDate(filename: string)
    requires !Contains(filename, Marker)
    ensures FileYearMonth(filename) == None
  {
  }

  /**
   * The year and month are the first two `-`-separated numbers after the first
   * marker: a name `prefix-byPurchaseDate-YYYY-M-rest` gives `(YYYY, M)`.
   */
  lemma FileYearMonthOfName(prefix: string, y: nat, m: nat, rest: string)
    requires Find(prefix + Marker + (DecimalString(y) + "-" + DecimalString(m) + "-" + rest), Marker) == Some(|prefix|)
    requires !Contains(DecimalString(y) + "-" + DecimalString(m) + "-" + rest, Marker)
    ensures FileYearMonth(prefix + Marker + (DecimalString(y) + "-" + DecimalString(m) + "-" + rest)) == Some((y, m))
  {
    var tail := DecimalString(y) + "-" + DecimalString(m) + "-" + rest;
    MarkerSplit(prefix, tail);
    DateFields(tail, y, m, rest);
    ParseDecimal(y);
    ParseDecimal(m);
    FileYearMonthParts(prefix + Marker + tail, DecimalString(y), DecimalString(m));
  }

  /** `FileYearMonth` reads the first two fields after the marker. */
  lemma FileYearMonthParts(name: string, ys: string, ms: string)
    requires |SplitOn(name, Marker)| >= 2
    requires var fields := SplitOn(SplitOn(name, Marker)[1], "-"); |fields| >= 2 && fields[0] == ys && fields[1] == ms
    requires ParseInt(ys).Some? && ParseInt(ms).Some?
    ensures FileYearMonth(name) == Some((ParseInt(ys).value, ParseInt(ms).value))
  {
  }

  lemma MarkerSplit(prefix: string, tail: string)
    requires Find(prefix + Marker + tail, Marker) == Some(|prefix|) && !Contains(tail, Marker)
    ensures SplitOn(prefix + Marker + tail, Marker) == [prefix, tail]
  {
    SplitAt(prefix, Marker, tail);
    assert SplitOn(tail, Marker) == [tail];
  }

  lemma DateFields(tail: string, y: nat, m: nat, rest: string)
    requires tail == DecimalString(y) + "-" + DecimalString(m) + "-" + rest
    ensures var fields := SplitOn(tail, "-");
      |fields| >= 2 && fields[0] == DecimalString(y) && fields[1] == DecimalString(m)
  {
    var ys, ms := DecimalString(y), DecimalString(m);
    assert ys + "-" + ms + "-" + rest == ys + ['-'] + (ms + ['-'] + rest);
    assert '-' !in ys && '-' !in ms;
    SplitAtFirst(ys, '-', ms + ['-'] + rest);
    SplitAtFirst(ms, '-', rest);
  }

  lemma ParseDecimal(n: nat)
    ensures ParseInt(DecimalString(n)) == Some(n)
  {
    ParseIntString(n);
  }

  /** Splitting where the first separator occurs. */
  lemma SplitAt(a: string, sep: string, b: string)
    requires sep != [] && Find(a + sep + b, sep) == Some(|a|)
    ensures SplitOn(a + sep + b, sep) == [a] + SplitOn(b, sep)
  {
    var s := a + sep + b;
    assert s[..|a|] == a && s[|a| + |sep|..] == b;
  }

  /** Splitting at a separator the first part does not hold. */
  lemma SplitAtFirst(a: string, c: char, b: string)
    requires c !in a
    ensures SplitOn(a + [c] + b, [c]) == [a] + SplitOn(b, [c])
  {
    var s := a + [c] + b;
    assert OccursAt(s, [c], |a|);
    forall j | 0 <= j < |a| ensures !OccursAt(s, [c], j) {
      assert s[j] == a[j];
    }
    SplitAt(a, [c], b);
  }

  /**
   * Whether the loop fetches a row, given the files present so far: never
   * when the name gives no year and month; with year and month given, exactly
   * when they match, even if the file is present; otherwise exactly when the
   * file is not present yet.
   */
  predicate Wanted(row: ListingRow, year: Option<int>, month: Option<int>, present: set<string>) {
    match FileYearMonth(Filename(row))
    case None => false
    case Some((fy, fm)) =>
      if year.Some? && month.Some? then fy == year.value && fm == month.value
      else Filename(row) !in present
  }

  /**
   * The download loop over rows of any kind: `wanted` says whether a row is
   * fetched while a given set of files is present, `name` which file it
   * stores, `post` whether its download succeeds. The rows posted for, in
   * order, and the files present afterwards.
   */
  function WalkBy<R>(rows: seq<R>, wanted: (R, set<string>) -> bool, name: R -> string,
                     present: set<string>, post: R -> bool): (seq<R>, set<string>)
  {
    if rows == [] then ([], present)
    else
      var row := rows[|rows| - 1];
      var (posted, files) := WalkBy(rows[..|rows| - 1], wanted, name, present, post);
      if wanted(row, files) then
        (posted + [row], if post(row) then files + {name(row)} else files)
      else (posted, files)
  }

  /** One more row: the loop decides on it with the files present so far. */
  lemma WalkByStep<R>(rows: seq<R>, i: nat, wanted: (R, set<string>) -> bool, name: R -> string,
                      present: set<string>, post: R -> bool)
    requires i < |rows|
    ensures WalkBy(rows[..i + 1], wanted, name, present, post) ==
      var (posted, files) := WalkBy(rows[..i], wanted, name, present, post);
      if wanted(rows[i], files) then
        (posted + [rows[i]], if post(rows[i]) then files + {name(rows[i])} else files)
      else (posted, files)
  {
    assert rows[..i + 1][..i] == rows[..i];
  }

  function WantedFor(year: Option<int>, month: Option<int>): (ListingRow, set<string>) -> bool {
    (row, present) => Wanted(row, year, month, present)
  }

  /** The download loop of `download_reports` over the listing rows. */
  function Walk(rows: seq<ListingRow>, year: Option<int>, month: Option<int>, present: set<string>,
                post: ListingRow -> bool): (seq<ListingRow>, set<string>)
  {
    WalkBy(rows, WantedFor(year, month), Filename, present, post)
  }

  lemma {:induction false} WalkByFiles<R>(rows: seq<R>, wanted: (R, set<string>) -> bool, name: R -> string,
                                              present: set<string>, post: R -> bool)
    ensures var (posted, files) := WalkBy(rows, wanted, name, present, post);
      && SubSeq(posted, rows)
      && files == present + set r | r in posted && post(r) :: name(r)
  {
    if rows != [] {
      var n := |rows| - 1;
      WalkByFiles(rows[..n], wanted, name, present, post);
      var (posted, files) := WalkBy(rows[..n], wanted, name, present, post);
      SubSeqSnoc(posted, rows[..n], rows[n]);
      assert rows[..n] + [rows[n]] == rows;
      var row := rows[n];
      if wanted(row, files) {
        var after := posted + [row];
        assert forall r :: r in after <==> r in posted || r == row;
      }
    }
  }

  lemma {:induction false} WalkByKeeps<R>(rows: seq<R>, wanted: (R, set<string>) -> bool, name: R -> string,
                                              present: set<string>, post: R -> bool, keep: R -> bool)
    requires forall r, f :: wanted(r, f) == keep(r)
    ensures forall r :: r in WalkBy(rows, wanted, name, present, post).0 <==> r in rows && keep(r)
  {
    if rows != [] {
      var n := |rows| - 1;
      WalkByKeeps(rows[..n], wanted, name, present, post, keep);
      assert forall r :: r in rows <==> r in rows[..n] || r == rows[n];
    }
  }

  lemma {:induction false} WalkBySkips<R>(rows: seq<R>, wanted: (R, set<string>) -> bool, name: R -> string,
                                              present: set<string>, post: R -> bool, named: R -> bool)
    requires forall r, f :: wanted(r, f) ==> name(r) !in f && named(r)
    ensures var (posted, files) := WalkBy(rows, wanted, name, present, post);
      && present <= files
      && (forall i :: 0 <= i < |posted| ==> name(posted[i]) !in present && named(posted[i]))
      && (forall i, j :: 0 <= i < j < |posted| && post(posted[i]) ==> name(posted[i]) != name(posted[j]))
      && (forall i :: 0 <= i < |posted| && post(posted[i]) ==> name(posted[i]) in files)
  {
    if rows != [] {
      var n := |rows| - 1;
      WalkBySkips(rows[..n], wanted, name, present, post, named);
    }
  }

  /**
   * The loop only posts for rows in order, and the files afterwards are
   * those present before plus the files of the successful downloads.
   */
  lemma WalkFiles(rows: seq<ListingRow>, year: Option<int>, month: Option<int>,
                  present: set<string>, post: ListingRow -> bool)
    ensures var (posted, files) := Walk(rows, year, month, present, post);
      && SubSeq(posted, rows)
      && files == present + set r | r in posted && post(r) :: Filename(r)
  {
    WalkByFiles(rows, WantedFor(year, month), Filename, present, post);
  }

  /** Keeping the same elements and adding one at the end of both sides. */
  lemma {:induction false} SubSeqSnoc<T>(a: seq<T>, b: seq<T>, x: T)
    requires SubSeq(a, b)
    ensures SubSeq(a, b + [x]) && SubSeq(a + [x], b + [x])
    decreases |b|
  {
    if b == [] {
      assert a == [];
      assert ([] + [x])[1..] == [] && ([x])[1..] == [];
    } else if a == [] {
      SubSeqSnoc(a, b[1..], x);
      assert (b + [x])[1..] == b[1..] + [x];
    } else {
      assert (b + [x])[1..] == b[1..] + [x];
      assert (a + [x])[1..] == a[1..] + [x];
      if a[0] == b[0] && SubSeq(a[1..], b[1..]) {
        SubSeqSnoc(a[1..], b[1..], x);
      }
      if SubSeq(a, b[1..]) {
        SubSeqSnoc(a, b[1..], x);
      }
    }
  }

  /**
   * With year and month given, the loop posts for exactly the rows whose file
   * name carries that year and month, whether or not the file is present.
   */
  lemma ForcedDownloads(rows: seq<ListingRow>, y: int, m: int, present: set<string>, post: ListingRow -> bool)
    ensures forall r :: r in Walk(rows, Some(y), Some(m), present, post).0 <==>
      r in rows && FileYearMonth(Filename(r)) == Some((y, m))
  {
    var keep := (r: ListingRow) => FileYearMonth(Filename(r)) == Some((y, m));
    forall r, f ensures WantedFor(Some(y), Some(m))(r, f) == keep(r) {
      WantedGiven(r, y, m, f);
    }
    WalkByKeeps(rows, WantedFor(Some(y), Some(m)), Filename, present, post, keep);
  }

  /** With year and month given, a row is wanted exactly when its name carries them. */
  lemma WantedGiven(row: ListingRow, y: int, m: int, present: set<string>)
    ensures Wanted(row, Some(y), Some(m), present) <==> FileYearMonth(Filename(row)) == Some((y, m))
  {
  }

  /**
   * Without year and month, the loop never posts for a file that was already
   * present or already downloaded earlier in the loop, and only for names that
   * carry a year and a month.
   */
  lemma DownloadsSkipPresent(rows: seq<ListingRow>, year: Option<int>, month: Option<int>,
                             present: set<string>, post: ListingRow -> bool)
    requires year.None? || month.None?
    ensures var (posted, files) := Walk(rows, year, month, present, post);
      && present <= files
      && (forall i :: 0 <= i < |posted| ==> Filename(posted[i]) !in present && FileYearMonth(Filename(posted[i])).Some?)
      && (forall i, j :: 0 <= i < j < |posted| && post(posted[i]) ==> Filename(posted[i]) != Filename(posted[j]))
      && (forall i :: 0 <= i < |posted| && post(posted[i]) ==> Filename(posted[i]) in files)
  {
    var named := (r: ListingRow) => FileYearMonth(Filename(r)).Some?;
    forall r, f | WantedFor(year, month)(r, f) ensures Filename(r) !in f && named(r) {
    }
    WalkBySkips(rows, WantedFor(year, month), Filename, present, post, named);
  }

  /** The local report folder: the names of the files it holds. */
  class ReportFolder {
    var files: set<string>

    constructor (files: set<string>)
      ensures this.files == files
    {
      this.files := files;
    }

    /**
     * `download_reports(year, month)`: check the arguments, drop duplicate
     * rows of the listing, then walk the rows, posting for every wanted file
     * and storing it when the post succeeds. Returns the verdict on the
     * arguments and the rows posted for.
     */
    method DownloadReports(year: Option<int>, month: Option<int>, today: Date, listing: seq<ListingRow>,
                           post: ListingRow -> bool) returns (check: Check, posted: seq<ListingRow>)
      modifies this
      ensures check == CheckArguments(year, month, today)
      ensures check != Proceed ==> posted == [] && files == old(files)
      ensures check == Proceed ==> (posted, files) == Walk(Dedup(listing), year, month, old(files), post)
    {
      check := CheckArguments(year, month, today);
      posted := [];
      if check != Proceed {
        return;
      }
      var rows := Dedup(listing);
      for i := 0 to |rows|
        invariant (posted, files) == Walk(rows[..i], year, month, old(files), post)
      {
        WalkByStep(rows, i, WantedFor(year, month), Filename, old(files), post);
        var wanted := Fetch(rows[i], year, month, post);
        if wanted {
          posted := posted + [rows[i]];
        }
      }
      assert rows[..|rows|] == rows;
    }

    /**
     * One pass of the download loop: skip the row when its name gives no
     * year and month, when year and month are given and differ, or when
     * they are not given and the file is present; otherwise post for it and
     * store the file when the post succeeds.
     */
    method Fetch(row: ListingRow, year: Option<int>, month: Option<int>, post: ListingRow -> bool) returns (wanted: bool)
      modifies this
      ensures wanted == Wanted(row, year, month, old(files))
      ensures files == if wanted && post(row) then old(files) + {Filename(row)} else old(files)
    {
      var filename := Strip(row.caption);
      var parsed := FileYearMonth(filename);
      wanted := false;
      if parsed.Some? {
        var (fileYear, fileMonth) := parsed.value;
        if year.Some? && month.Some? {
          wanted := fileYear == year.value && fileMonth == month.value;
        } else {
          wanted := filename !in files;
        }
        if wanted && post(row) {
          files := files + {filename};
        }
      }
    }
  }

  // --------------------------------------------------- generate_reports

  /** The selection options of `generate_reports`; an option left out is `false` or `None`. */
  datatype Selection = Selection(all: bool, year: Option<int>, month: Option<int>, currentMonth: bool, previousMonth: bool)

  /**
   * The year and month of the day before the first of today's month; the
   * first month of year 1 has none (`OverflowError`).
   */
  function PreviousMonth(today: Date): Option<(int, int)> {
    if today.month == 1 then (if today.year == 1 then None else Some((today.year - 1, 12)))
    else Some((today.year, today.month - 1))
  }

  /** The previous month is the month right before today's, and exists except in January of year 1. */
  lemma PreviousMonthSpec(today: Date)
    requires 1 <= today.month <= 12
    ensures PreviousMonth(today).None? <==> today.year == 1 && today.month == 1
    ensures PreviousMonth(today).Some? ==>
      var (y, m) := PreviousMonth(today).value;
      1 <= m <= 12 && MonthIndex(y, m) + 1 == MonthIndex(today.year, today.month)
  {
  }

  function Texts(values: seq<string>): (r: seq<Field>)
    ensures |r| == |values| && forall i :: 0 <= i < |values| ==> r[i] == Txt(values[i])
  {
    seq(|values|, i requires 0 <= i < |values| => Txt(values[i]))
  }

  /** `[1, 2, ..., 12]`. */
  function AllMonths(): (r: seq<Field>)
    ensures |r| == 12 && forall i :: 0 <= i < 12 ==> r[i] == Num(i + 1)
  {
    seq(12, i requires 0 <= i < 12 => Num(i + 1))
  }

  /**
   * The years and months to generate, by precedence: all, current month,
   * previous month, year (with its month or all twelve), nothing. With "all"
   * they are the option values of the statistics page, each once. `None`
   * where computing the previous month overflows.
   */
  function Choice(sel: Selection, today: Date, yearOptions: seq<string>, monthOptions: seq<string>): Option<(seq<Field>, seq<Field>)> {
    if sel.all then Some((Texts(Dedup(yearOptions)), Texts(Dedup(monthOptions))))
    else if sel.currentMonth then Some(([Txt(IntString(today.year))], [Txt(IntString(today.month))]))
    else if sel.previousMonth then
      match PreviousMonth(today)
      case None => None
      case Some((y, m)) => Some(([Txt(IntString(y))], [Txt(IntString(m))]))
    else if Truthy(sel.year) then
      Some(([Num(sel.year.value)], if Truthy(sel.month) then [Num(sel.month.value)] else AllMonths()))
    else Some(([], []))
  }

  /** Every year with every month, years in the outer loop. */
  function Pairs(years: seq<Field>, months: seq<Field>): seq<(Field, Field)> {
    if years == [] then []
    else
      var n := |years| - 1;
      Pairs(years[..n], months) + Row(years[n], months)
  }

  function Row(year: Field, months: seq<Field>): (r: seq<(Field, Field)>)
    ensures |r| == |months| && forall j :: 0 <= j < |months| ==> r[j] == (year, months[j])
  {
    seq(|months|, j requires 0 <= j < |months| => (year, months[j]))
  }

  /** One pair for every year and month. */
  lemma {:induction false} PairsLength(years: seq<Field>, months: seq<Field>)
    ensures |Pairs(years, months)| == |years| * |months|
  {
    if years != [] {
      var n := |years| - 1;
      PairsLength(years[..n], months);
      assert |years| * |months| == n * |months| + |months|;
    }
  }

  /** Pair `(years[i], months[j])` comes at position `i * |months| + j`: year-major order. */
  lemma {:induction false} PairsOrder(years: seq<Field>, months: seq<Field>, i: nat, j: nat)
    requires i < |years| && j < |months|
    ensures i * |months| + j < |Pairs(years, months)|
    ensures Pairs(years, months)[i * |months| + j] == (years[i], months[j])
  {
    var n := |years| - 1;
    var init := Pairs(years[..n], months);
    assert Pairs(years, months) == init + Row(years[n], months);
    if i < n {
      PairsOrder(years[..n], months, i, j);
      assert years[..n][i] == years[i];
    } else {
      PairsLength(years[..n], months);
      assert i * |months| == |init|;
    }
  }

  /**
   * A loop over `pairs` that posts every pair `judge` finds not in the
   * future, skips the future ones and stops at the first error: the pairs
   * posted for, in order, and whether an error stopped the loop.
   */
  function SubmitBy<P, E>(pairs: seq<P>, judge: P -> Result<bool, E>): (seq<P>, bool) {
    if pairs == [] then ([], false)
    else
      var n := |pairs| - 1;
      var (posted, stopped) := SubmitBy(pairs[..n], judge);
      if stopped then (posted, true)
      else
        match judge(pairs[n])
        case Err(_) => (posted, true)
        case Ok(future) => if future then (posted, false) else (posted + [pairs[n]], false)
  }

  function FutureOf(today: Date): ((Field, Field)) -> Result<bool, Field> {
    (p: (Field, Field)) => IsFutureDate(p.0, p.1, today)
  }

  /** The pair loop of `generate_reports`. */
  function Submit(pairs: seq<(Field, Field)>, today: Date): (seq<(Field, Field)>, bool) {
    SubmitBy(pairs, FutureOf(today))
  }

  lemma {:induction false} SubmitBySpec<P, E>(pairs: seq<P>, judge: P -> Result<bool, E>)
    ensures var (posted, stopped) := SubmitBy(pairs, judge);
      && SubSeq(posted, pairs)
      && (forall i :: 0 <= i < |posted| ==> judge(posted[i]) == Ok(false))
      && (stopped <==> exists k :: 0 <= k < |pairs| && judge(pairs[k]).Err?)
      && (!stopped ==> forall p :: p in pairs && judge(p) == Ok(false) ==> p in posted)
  {
    if pairs != [] {
      var n := |pairs| - 1;
      var init := pairs[..n];
      SubmitBySpec(init, judge);
      var (posted, stopped) := SubmitBy(init, judge);
      SubSeqSnoc(posted, init, pairs[n]);
      assert init + [pairs[n]] == pairs;
      assert forall k :: 0 <= k < n ==> init[k] == pairs[k];
      assert forall p :: p in pairs <==> p in init || p == pairs[n];
    }
  }

  /**
   * The loop posts only pairs that are not in the future, in order; it stops
   * exactly when some pair cannot be read, and otherwise posts every pair
   * that is not in the future.
   */
  lemma SubmitSpec(pairs: seq<(Field, Field)>, today: Date)
    ensures var (posted, stopped) := Submit(pairs, today);
      && SubSeq(posted, pairs)
      && (forall i :: 0 <= i < |posted| ==> IsFutureDate(posted[i].0, posted[i].1, today) == Ok(false))
      && (stopped <==> exists k :: 0 <= k < |pairs| && IsFutureDate(pairs[k].0, pairs[k].1, today).Err?)
      && (!stopped ==> forall p :: p in pairs && IsFutureDate(p.0, p.1, today) == Ok(false) ==> p in posted)
  {
    SubmitBySpec(pairs, FutureOf(today));
  }

  /** One more pair: the loop, unless stopped, judges it. */
  lemma SubmitByStep<P, E>(pairs: seq<P>, p: P, judge: P -> Result<bool, E>)
    ensures SubmitBy(pairs + [p], judge) ==
      var (posted, stopped) := SubmitBy(pairs, judge);
      if stopped then (posted, true)
      else
        match judge(p)
        case Err(_) => (posted, true)
        case Ok(future) => if future then (posted, false) else (posted + [p], false)
  {
    assert (pairs + [p])[..|pairs|] == pairs;
  }

  /** A stopped loop stays stopped: later pairs change nothing. */
  lemma {:induction false} SubmitStopped<P, E>(pairs: seq<P>, n: nat, judge: P -> Result<bool, E>)
    requires n <= |pairs| && SubmitBy(pairs[..n], judge).1
    ensures SubmitBy(pairs, judge) == SubmitBy(pairs[..n], judge)
    decreases |pairs| - n
  {
    if n < |pairs| {
      var m := |pairs| - 1;
      assert pairs[..m][..n] == pairs[..n];
      SubmitStopped(pairs[..m], n, judge);
    } else {
      assert pairs[..n] == pairs;
    }
  }

  /** What `generate_reports` posts: the pairs of its selection that are not in the future. */
  function Generated(sel: Selection, today: Date, yearOptions: seq<string>, monthOptions: seq<string>): (seq<(Field, Field)>, bool) {
    match Choice(sel, today, yearOptions, monthOptions)
    case None => ([], true)
    case Some((years, months)) => Submit(Pairs(years, months), today)
  }

  /**
   * `generate_reports(all, year, month, current_month, previous_month)`:
   * resolve the selection, then for every year and, inside it, every month,
   * post a generation request unless the month is in the future. A failed
   * post moves on to the next pair; an exception ends the whole run.
   * Returns the pairs posted for and whether an exception ended the run.
   */
  method GenerateReports(sel: Selection, today: Date, yearOptions: seq<string>, monthOptions: seq<string>)
    returns (posted: seq<(Field, Field)>, stopped: bool)
    ensures (posted, stopped) == Generated(sel, today, yearOptions, monthOptions)
  {
    var years: seq<Field>, months: seq<Field>;
    if sel.all {
      years, months := Texts(Dedup(yearOptions)), Texts(Dedup(monthOptions));
    } else if sel.currentMonth {
      years, months := [Txt(IntString(today.year))], [Txt(IntString(today.month))];
    } else if sel.previousMonth {
      var last := PreviousMonth(today);
      if last.None? {
        return [], true;
      }
      years, months := [Txt(IntString(last.value.0))], [Txt(IntString(last.value.1))];
    } else if Truthy(sel.year) {
      years := [Num(sel.year.value)];
      months := if Truthy(sel.month) then [Num(sel.month.value)] else AllMonths();
    } else {
      years, months := [], [];
    }
    assert Choice(sel, today, yearOptions, monthOptions) == Some((years, months));
    posted, stopped := PostPairs(years, months, today);
  }

  /**
   * The nested loops of `generate_reports`: years outside, months inside,
   * a request for every pair not in the future, and the first exception
   * ending the run.
   */
  method PostPairs(years: seq<Field>, months: seq<Field>, today: Date) returns (posted: seq<(Field, Field)>, stopped: bool)
    ensures (posted, stopped) == Submit(Pairs(years, months), today)
  {
    posted, stopped := [], false;
    for i := 0 to |years|
      invariant (posted, stopped) == Submit(Pairs(years[..i], months), today)
      invariant !stopped
    {
      var year := years[i];
      assert years[..i + 1][..i] == years[..i];
      ghost var done := Pairs(years[..i], months);
      assert done + Row(year, months[..0]) == done;
      for j := 0 to |months|
        invariant (posted, stopped) == Submit(done + Row(year, months[..j]), today)
        invariant !stopped
      {
        var month := months[j];
        ghost var before := done + Row(year, months[..j]);
        assert done + Row(year, months[..j + 1]) == before + [(year, month)];
        SubmitByStep(before, (year, month), FutureOf(today));
        var future := IsFutureDate(year, month, today);
        if future.Err? {
          StopEarly(years, months, i, j + 1, today);
          return posted, true;
        }
        if !future.value {
          posted := posted + [(year, month)];
        }
      }
      assert months[..|months|] == months;
      assert Pairs(years[..i + 1], months) == done + Row(year, months);
    }
    assert years[..|years|] == years;
  }

  /** Once the loop stops inside year `i`, the pairs after that change nothing. */
  lemma StopEarly(years: seq<Field>, months: seq<Field>, i: nat, j: nat, today: Date)
    requires i < |years| && j <= |months|
    requires Submit(Pairs(years[..i], months) + Row(years[i], months[..j]), today).1
    ensures Submit(Pairs(years, months), today) == Submit(Pairs(years[..i], months) + Row(years[i], months[..j]), today)
  {
    var done := Pairs(years[..i], months) + Row(years[i], months[..j]);
    PairsPrefix(years, months, i, j);
    SubmitStoppedAt(Pairs(years, months), done, FutureOf(today));
  }

  /** `SubmitStopped` for a prefix given by its elements. */
  lemma SubmitStoppedAt<P, E>(pairs: seq<P>, done: seq<P>, judge: P -> Result<bool, E>)
    requires |done| <= |pairs| && pairs[..|done|] == done && SubmitBy(done, judge).1
    ensures SubmitBy(pairs, judge) == SubmitBy(done, judge)
  {
    SubmitStopped(pairs, |done|, judge);
  }

  /** The pairs before `(years[i], months[j])` are the first years' pairs and the first months of year `i`. */
  lemma PairsPrefix(years: seq<Field>, months: seq<Field>, i: nat, j: nat)
    requires i < |years| && j <= |months|
    ensures |Pairs(years[..i], months)| + j <= |Pairs(years, months)|
    ensures Pairs(years, months)[..|Pairs(years[..i], months)| + j] == Pairs(years[..i], months) + Row(years[i], months[..j])
  {
    var all, init, row := Pairs(years, months), Pairs(years[..i], months), Row(years[i], months);
    var head := Pairs(years[..i + 1], months);
    PairsAppend(years, months, i + 1);
    assert head == init + row by {
      assert years[..i + 1][..i] == years[..i];
    }
    assert all[..|init| + j] == head[..|init| + j];
    assert head[..|init| + j] == init + row[..j];
    assert row[..j] == Row(years[i], months[..j]);
  }

  /** The pairs of the first `k` years start the pairs of all years. */
  lemma {:induction false} PairsAppend(years: seq<Field>, months: seq<Field>, k: nat)
    requires k <= |years|
    ensures |Pairs(years[..k], months)| <= |Pairs(years, months)|
    ensures Pairs(years, months)[..|Pairs(years[..k], months)|] == Pairs(years[..k], months)
    decreases |years| - k
  {
    if k < |years| {
      var n := |years| - 1;
      PairsAppend(years[..n], months, k);
      assert years[..n][..k] == years[..k];
    } else {
      assert years[..k] == years;
    }
  }

  // -------------------------------------------------- selection outcomes

  /** The months `1..n` of one year, posted or not, as pairs. */
  function YearMonths(y: int, n: nat): (r: seq<(Field, Field)>)
    ensures |r| == n && forall i :: 0 <= i < n ==> r[i] == (Num(y), Num(i + 1))
  {
    seq(n, i requires 0 <= i < n => (Num(y), Num(i + 1)))
  }

  /** How many of the months `1..12` of year `y` are not in the future. */
  function MonthsSoFar(y: int, today: Date): nat {
    if y < today.year then 12
    else if y > today.year then 0
    else if today.month < 0 then 0
    else if today.month > 12 then 12
    else today.month
  }

  lemma {:induction false} SubmitYearMonths(y: int, n: nat, today: Date)
    requires n <= 12
    ensures Submit(YearMonths(y, n), today) ==
      (YearMonths(y, if n < MonthsSoFar(y, today) then n else MonthsSoFar(y, today)), false)
  {
    if n > 0 {
      SubmitYearMonths(y, n - 1, today);
      assert YearMonths(y, n)[..n - 1] == YearMonths(y, n - 1);
      var k := if n - 1 < MonthsSoFar(y, today) then n - 1 else MonthsSoFar(y, today);
      if n <= MonthsSoFar(y, today) {
        assert YearMonths(y, k) + [(Num(y), Num(n))] == YearMonths(y, n);
      }
    }
  }

  /** Every year of `years` meets every month of `months` among the pairs. */
  lemma PairsHoldEvery(years: seq<Field>, months: seq<Field>, y: Field, m: Field)
    requires y in years && m in months
    ensures (y, m) in Pairs(years, months)
  {
    var i :| 0 <= i < |years| && years[i] == y;
    var j :| 0 <= j < |months| && months[j] == m;
    PairsOrder(years, months, i, j);
  }

  /**
   * With "all", every year option meets every month option: unless an
   * exception ends the run, each such pair not in the future is posted for,
   * and every pair posted for is not in the future.
   */
  lemma AllOptionsGenerated(sel: Selection, today: Date, yearOptions: seq<string>, monthOptions: seq<string>)
    requires sel.all
    ensures var (posted, stopped) := Generated(sel, today, yearOptions, monthOptions);
      && (forall i :: 0 <= i < |posted| ==> IsFutureDate(posted[i].0, posted[i].1, today) == Ok(false))
      && (!stopped ==> forall y, m :: y in yearOptions && m in monthOptions && IsFutureDate(Txt(y), Txt(m), today) == Ok(false) ==>
            (Txt(y), Txt(m)) in posted)
  {
    var years, months := Texts(Dedup(yearOptions)), Texts(Dedup(monthOptions));
    var pairs := Pairs(years, months);
    SubmitSpec(pairs, today);
    DedupSpec(yearOptions);
    DedupSpec(monthOptions);
    forall y, m | y in yearOptions && m in monthOptions
      ensures (Txt(y), Txt(m)) in pairs
    {
      var i :| 0 <= i < |Dedup(yearOptions)| && Dedup(yearOptions)[i] == y;
      var j :| 0 <= j < |Dedup(monthOptions)| && Dedup(monthOptions)[j] == m;
      assert years[i] == Txt(y) && months[j] == Txt(m);
      PairsHoldEvery(years, months, Txt(y), Txt(m));
    }
  }

  /** With no option set, nothing is generated and the run ends normally. */
  lemma NothingSelected(sel: Selection, today: Date, yearOptions: seq<string>, monthOptions: seq<string>)
    requires !sel.all && !sel.currentMonth && !sel.previousMonth && !Truthy(sel.year)
    ensures Generated(sel, today, yearOptions, monthOptions) == ([], false)
  {
  }

  /**
   * A year without a month posts every month of a past year, the months up to
   * today's of the current year, and nothing for a later year.
   */
  lemma YearWithoutMonth(sel: Selection, today: Date, yearOptions: seq<string>, monthOptions: seq<string>)
    requires !sel.all && !sel.currentMonth && !sel.previousMonth
    requires Truthy(sel.year) && !Truthy(sel.month)
    ensures Generated(sel, today, yearOptions, monthOptions) == (YearMonths(sel.year.value, MonthsSoFar(sel.year.value, today)), false)
  {
    var y := sel.year.value;
    assert Pairs([Num(y)], AllMonths()) == Pairs([], AllMonths()) + Row(Num(y), AllMonths());
    assert Pairs([Num(y)], AllMonths()) == YearMonths(y, 12);
    SubmitYearMonths(y, 12, today);
  }

  /** The current-month option posts exactly today's year and month. */
  lemma CurrentMonthGenerated(sel: Selection, today: Date, yearOptions: seq<string>, monthOptions: seq<string>)
    requires !sel.all && sel.currentMonth
    ensures Generated(sel, today, yearOptions, monthOptions) == ([(Txt(IntString(today.year)), Txt(IntString(today.month)))], false)
  {
    var a, b := Txt(IntString(today.year)), Txt(IntString(today.month));
    assert Choice(sel, today, yearOptions, monthOptions) == Some(([a], [b]));
    CurrentMonthNotFuture(today);
    SinglePair(a, b, today);
  }

  /** The previous-month option posts the month before today's, written as text. */
  lemma PreviousMonthGenerated(sel: Selection, today: Date, yearOptions: seq<string>, monthOptions: seq<string>)
    requires !sel.all && !sel.currentMonth && sel.previousMonth
    requires 1 <= today.month <= 12 && PreviousMonth(today).Some?
    ensures var (y, m) := PreviousMonth(today).value;
      Generated(sel, today, yearOptions, monthOptions) == ([(Txt(IntString(y)), Txt(IntString(m)))], false)
  {
    var (y, m) := PreviousMonth(today).value;
    var a, b := Txt(IntString(y)), Txt(IntString(m));
    assert Choice(sel, today, yearOptions, monthOptions) == Some(([a], [b]));
    assert IsFutureDate(a, b, today) == Ok(false) by {
      PreviousMonthSpec(today);
      IsFutureDateMeansLater(y, m, today);
      TextFieldsRead(y, m, today);
    }
    SinglePair(a, b, today);
  }

  /** A selection of one year and one month posts that pair unless it is in the future or unreadable. */
  lemma SinglePair(a: Field, b: Field, today: Date)
    ensures Submit(Pairs([a], [b]), today) ==
      match IsFutureDate(a, b, today)
      case Err(_) => ([], true)
      case Ok(future) => if future then ([], false) else ([(a, b)], false)
  {
    assert [a][..0] == [];
    assert Pairs([a], [b]) == [] + [(a, b)];
    SubmitByStep([], (a, b), FutureOf(today));
  }
}
