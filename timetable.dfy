/** The timetable view's helpers: reading a weekday out of a free-text
    slot such as "Mon/Wed 10:00", grouping the rows by that day, laying the
    groups out Monday to Sunday and then the unknown slot, and the null-safe
    trim of the card text. */
module Timetable {
  import opened Wrappers
  import opened Seqs
  import opened Text
  import Students

  type TimetableEntry = Students.TimetableEntry

  const UNKNOWN: string := "Unknown"

  /** The day names in display order, the unknown slot last. */
  const DAY_ORDER: seq<string> := ["Monday", "Tuesday", "Wednesday", "Thursday", "Friday", "Saturday", "Sunday", UNKNOWN]

  /** The prefix of a token that names each weekday, in weekday order. */
  const DAY_PREFIXES: seq<string> := ["mon", "tue", "wed", "thu", "fri", "sat", "sun"]

  // ---------------------------------------------------------------------
  // normalizeDay

  /** The separators of `split("[,\\s/]+")`: a comma, a slash, or one of
      the regular expression's six whitespace characters. */
  predicate IsDelimiter(c: char) {
    c == ',' || c == '/' || c == ' ' || c == '\t' || c == '\n' || c == '\U{000B}' || c == '\U{000C}' || c == '\r'
  }

  /** The length of the run of non-separators at the front of `s`. */
  function RunLength(s: string): (n: nat)
    ensures n <= |s|
    ensures forall i :: 0 <= i < n ==> !IsDelimiter(s[i])
    ensures n < |s| ==> IsDelimiter(s[n])
  {
    if s == [] || IsDelimiter(s[0]) then 0 else 1 + RunLength(s[1..])
  }

  /** The tokens of the split: the maximal runs of non-separators, in
      order. Java also yields an empty first token when `s` starts with a
      separator; an empty token names no day, so it is not kept. */
  function Tokens(s: string): seq<string>
    decreases |s|
  {
    if s == [] then []
    else if IsDelimiter(s[0]) then Tokens(s[1..])
    else
      var n := RunLength(s);
      [s[..n]] + Tokens(s[n..])
  }

  /** The seven weekday names `normalizeDay` can return besides
      "Unknown". */
  predicate IsWeekday(day: string) {
    || day == "Monday" || day == "Tuesday" || day == "Wednesday" || day == "Thursday"
    || day == "Friday" || day == "Saturday" || day == "Sunday"
  }

  /** The day a lower-case token names: the first prefix it starts with. */
  function DayOfToken(t: string): (r: Option<string>)
    ensures r.Some? ==> IsWeekday(r.value)
    ensures r.Some? ==> |t| >= 3 && t[0] in "mtwfs"
  {
    if StartsWith(t, "mon") then Some("Monday")
    else if StartsWith(t, "tue") then Some("Tuesday")
    else if StartsWith(t, "wed") then Some("Wednesday")
    else if StartsWith(t, "thu") then Some("Thursday")
    else if StartsWith(t, "fri") then Some("Friday")
    else if StartsWith(t, "sat") then Some("Saturday")
    else if StartsWith(t, "sun") then Some("Sunday")
    else None
  }

  /** The first token that names a day decides. */
  function FirstDay(tokens: seq<string>): (r: Option<string>)
    ensures r.Some? ==> IsWeekday(r.value)
  {
    if tokens == [] then None
    else if DayOfToken(tokens[0]).Some? then DayOfToken(tokens[0])
    else FirstDay(tokens[1..])
  }

  /** No day is found exactly when no token names one. */
  lemma {:induction false} FirstDayNoneIff(tokens: seq<string>)
    ensures FirstDay(tokens).None? <==> forall t :: t in tokens ==> DayOfToken(t).None?
  {
    if tokens != [] {
      FirstDayNoneIff(tokens[1..]);
      assert forall t :: t in tokens <==> t == tokens[0] || t in tokens[1..];
    }
  }

  /** The day named in a slot text, case-insensitively. */
  function DayIn(s: string): Option<string> {
    FirstDay(Tokens(Lower(s)))
  }

  /** `normalizeDay(dayTime)`: a weekday name, or "Unknown" for a null,
      blank or unrecognised slot. */
  function NormalizeDay(dayTime: Option<string>): (r: string)
    ensures IsWeekday(r) || r == UNKNOWN
    ensures NullOrBlank(dayTime) ==> r == UNKNOWN
  {
    if NullOrBlank(dayTime) then UNKNOWN
    else match DayIn(dayTime.value)
      case Some(day) => day
      case None => UNKNOWN
  }

  /** Only a slot whose text has a token naming a weekday is filed under
      one; every other slot, null and blank ones included, is "Unknown". */
  lemma NormalizeDayNamesWeekdayIff(dayTime: Option<string>)
    ensures NormalizeDay(dayTime) != UNKNOWN
            <==> dayTime.Some? && exists t :: t in Tokens(Lower(dayTime.value)) && DayOfToken(t).Some?
  {
    if dayTime.Some? {
      FirstDayNoneIff(Tokens(Lower(dayTime.value)));
      if IsBlank(dayTime.value) {
        LowerKeepsBlank(dayTime.value);
        BlankHasNoTokens(Lower(dayTime.value));
      }
    }
  }

  /** A blank text names no day: the whitespace of `isBlank` that the
      split keeps inside tokens never starts a day prefix. */
  lemma {:induction false} BlankHasNoTokens(s: string)
    requires IsBlank(s)
    ensures forall t :: t in Tokens(s) ==> DayOfToken(t).None?
    decreases |s|
  {
    if s != [] {
      if IsDelimiter(s[0]) {
        BlankHasNoTokens(s[1..]);
      } else {
        var n := RunLength(s);
        BlankHasNoTokens(s[n..]);
        var t := s[..n];
        assert t[0] == s[0] && IsJavaWhitespace(s[0]);
        assert t[0] !in "mtwfs";
        assert forall x :: x in Tokens(s) <==> x == t || x in Tokens(s[n..]);
      }
    }
  }

  /** Case does not matter: two slots equal up to case land on the same
      day. */
  lemma NormalizeDayIgnoresCase(a: string, b: string)
    requires EqualsIgnoreCase(a, b)
    ensures NormalizeDay(Some(a)) == NormalizeDay(Some(b))
  {
    LowerKeepsBlank(a);
    LowerKeepsBlank(b);
  }

  lemma {:induction false} RunStopsAtDelimiter(a: string, c: char, b: string)
    requires IsDelimiter(c)
    ensures RunLength(a + [c] + b) == RunLength(a)
    decreases |a|
  {
    if a != [] && !IsDelimiter(a[0]) {
      assert (a + [c] + b)[1..] == a[1..] + [c] + b;
      RunStopsAtDelimiter(a[1..], c, b);
    } else if a == [] {
      assert (a + [c] + b)[0] == c;
    }
  }

  /** A separator splits the token list in two. */
  lemma {:induction false} TokensSplit(a: string, c: char, b: string)
    requires IsDelimiter(c)
    ensures Tokens(a + [c] + b) == Tokens(a) + Tokens(b)
    decreases |a|
  {
    var s := a + [c] + b;
    if a == [] {
      assert s[0] == c && s[1..] == b;
      assert Tokens(s) == Tokens(b);
    } else if IsDelimiter(a[0]) {
      assert s[0] == a[0] && s[1..] == a[1..] + [c] + b;
      TokensSplit(a[1..], c, b);
      assert Tokens(s) == Tokens(a[1..]) + Tokens(b);
    } else {
      assert s[0] == a[0];
      var n := RunLength(s);
      RunStopsAtDelimiter(a, c, b);
      assert s[..n] == a[..n];
      assert s[n..] == a[n..] + [c] + b;
      TokensSplit(a[n..], c, b);
      assert Tokens(s) == [a[..n]] + (Tokens(a[n..]) + Tokens(b));
    }
  }

  lemma {:induction false} FirstDayAppend(x: seq<string>, y: seq<string>)
    ensures FirstDay(x + y) == if FirstDay(x).Some? then FirstDay(x) else FirstDay(y)
    decreases |x|
  {
    if x != [] {
      assert (x + y)[0] == x[0];
      assert (x + y)[1..] == x[1..] + y;
      FirstDayAppend(x[1..], y);
    } else {
      assert x + y == y;
    }
  }

  lemma LowerAppend(a: string, c: char, b: string)
    ensures Lower(a + [c] + b) == Lower(a) + [LowerChar(c)] + Lower(b)
  {
  }

  /** The first token decides: in "Mon/Wed 10:00" the text before the
      first separator already names Monday, so the slot is Monday whatever
      follows; when it names no day, the rest of the text decides. */
  lemma FirstNamedDayDecides(a: string, c: char, b: string)
    requires IsDelimiter(c)
    ensures DayIn(a + [c] + b) == if DayIn(a).Some? then DayIn(a) else DayIn(b)
    ensures DayIn(a).Some? ==> NormalizeDay(Some(a + [c] + b)) == DayIn(a).value
  {
    LowerAppend(a, c, b);
    assert IsDelimiter(LowerChar(c));
    TokensSplit(Lower(a), LowerChar(c), Lower(b));
    FirstDayAppend(Tokens(Lower(a)), Tokens(Lower(b)));
    if DayIn(a).Some? {
      NormalizeDayNamesWeekdayIff(Some(a + [c] + b));
      FirstDayNoneIff(Tokens(Lower(a + [c] + b)));
    }
  }

  // ---------------------------------------------------------------------
  // groupByDay

  /** The key an entry is grouped under. */
  function DayOf(e: TimetableEntry): string {
    NormalizeDay(Some(e.dayTime))
  }

  function HasKey<T, K(==)>(key: T -> K, k: K): T -> bool {
    (x: T) => key(x) == k
  }

  /** Grouping by a key the way `groupByDay` fills its map: each element
      appended to the list of its key, a key's list created on its first
      element. */
  function Grouped<T, K(==)>(s: seq<T>, key: T -> K): map<K, seq<T>> {
    if s == [] then map[]
    else
      var groups := Grouped(s[..|s| - 1], key);
      var x := s[|s| - 1];
      groups[key(x) := (if key(x) in groups then groups[key(x)] else []) + [x]]
  }

  /** Every element lands in exactly one group, the one of its key, and
      each group lists its elements in input order: a key's group is the
      input filtered by that key, and a key has a group exactly when some
      element has it. */
  lemma {:induction false} GroupIsFilter<T(!new), K>(s: seq<T>, key: T -> K, k: K)
    ensures k in Grouped(s, key) <==> exists x :: x in s && key(x) == k
    ensures k in Grouped(s, key) ==> Grouped(s, key)[k] == Filter(s, HasKey(key, k))
    ensures k !in Grouped(s, key) ==> Filter(s, HasKey(key, k)) == []
  {
    GroupedKeys(s, key, k);
    GroupedContents(s, key, k);
  }

  lemma {:induction false} GroupedKeys<T(!new), K>(s: seq<T>, key: T -> K, k: K)
    ensures k in Grouped(s, key) <==> exists x :: x in s && key(x) == k
  {
    if s != [] {
      var init := s[..|s| - 1];
      var x := s[|s| - 1];
      GroupedKeys(init, key, k);
      assert s == init + [x];
      if key(x) == k {
        assert x in s;
      } else {
        if k in Grouped(s, key) {
          var y :| y in init && key(y) == k;
          assert y in s;
        }
        if exists y :: y in s && key(y) == k {
          var y :| y in s && key(y) == k;
          assert y in init;
        }
      }
    }
  }

  lemma {:induction false} GroupedContents<T(!new), K>(s: seq<T>, key: T -> K, k: K)
    ensures (if k in Grouped(s, key) then Grouped(s, key)[k] else []) == Filter(s, HasKey(key, k))
  {
    if s != [] {
      var init := s[..|s| - 1];
      var x := s[|s| - 1];
      GroupedContents(init, key, k);
      assert s == init + [x];
      FilterAppend(init, [x], HasKey(key, k));
    }
  }

  /** `groupByDay(entries)`, filling the map entry by entry. */
  method GroupByDay(entries: seq<TimetableEntry>) returns (byDay: map<string, seq<TimetableEntry>>)
    ensures byDay == Grouped(entries, DayOf)
  {
    byDay := map[];
    var i := 0;
    while i < |entries|
      invariant 0 <= i <= |entries|
      invariant byDay == Grouped(entries[..i], DayOf)
    {
      var e := entries[i];
      var key := NormalizeDay(Some(e.dayTime));
      var group := if key in byDay then byDay[key] else [];
      byDay := byDay[key := group + [e]];
      assert entries[..i + 1][..i] == entries[..i];
      i := i + 1;
    }
    assert entries[..i] == entries;
  }

  // ---------------------------------------------------------------------
  // Day order

  /** One day's panel: the day and its entries. */
  datatype DaySection = DaySection(day: string, entries: seq<TimetableEntry>)

  /** A day's position in the display order. */
  function Rank(day: string): nat {
    if day == "Monday" then 0
    else if day == "Tuesday" then 1
    else if day == "Wednesday" then 2
    else if day == "Thursday" then 3
    else if day == "Friday" then 4
    else if day == "Saturday" then 5
    else if day == "Sunday" then 6
    else 7
  }

  lemma RankOfDayOrder(k: nat)
    requires k < |DAY_ORDER|
    ensures Rank(DAY_ORDER[k]) == k
  {
  }

  /** Every day `normalizeDay` returns has its place in the order. */
  lemma DayInOrder(day: string)
    requires IsWeekday(day) || day == UNKNOWN
    ensures day in DAY_ORDER && DAY_ORDER[Rank(day)] == day
  {
  }

  lemma DayOrderDistinct()
    ensures DistinctKeys(DAY_ORDER)
  {
    forall i, j | 0 <= i < j < |DAY_ORDER| ensures DAY_ORDER[i] != DAY_ORDER[j] {
      RankOfDayOrder(i);
      RankOfDayOrder(j);
    }
  }

  predicate Shown(byDay: map<string, seq<TimetableEntry>>, day: string) {
    day in byDay && byDay[day] != []
  }

  /** The panels from position `k` of the display order on: a panel for
      each day that has entries, in that order. */
  function LayoutFrom(k: nat, byDay: map<string, seq<TimetableEntry>>): (r: seq<DaySection>)
    requires k <= |DAY_ORDER|
    ensures forall i :: 0 <= i < |r| ==> Shown(byDay, r[i].day) && r[i].entries == byDay[r[i].day]
    ensures forall i :: 0 <= i < |r| ==> k <= Rank(r[i].day) && r[i].day == DAY_ORDER[Rank(r[i].day)]
    ensures forall i, j :: 0 <= i < j < |r| ==> Rank(r[i].day) < Rank(r[j].day)
    decreases |DAY_ORDER| - k
  {
    if k == |DAY_ORDER| then []
    else
      var rest := LayoutFrom(k + 1, byDay);
      var day := DAY_ORDER[k];
      RankOfDayOrder(k);
      if Shown(byDay, day) then
        var r := [DaySection(day, byDay[day])] + rest;
        assert forall i :: 1 <= i < |r| ==> r[i] == rest[i - 1];
        r
      else rest
  }

  /** The display loop of `loadTimetableData`: one panel per day in the
      fixed order, days without entries skipped. */
  method LayoutDays(byDay: map<string, seq<TimetableEntry>>) returns (panels: seq<DaySection>)
    ensures panels == LayoutFrom(0, byDay)
  {
    panels := [];
    var k := |DAY_ORDER|;
    while k > 0
      invariant 0 <= k <= |DAY_ORDER|
      invariant panels == LayoutFrom(k, byDay)
    {
      k := k - 1;
      var day := DAY_ORDER[k];
      if day in byDay && byDay[day] != [] {
        panels := [DaySection(day, byDay[day])] + panels;
      }
    }
  }

  /** All the entries the panels show, panel after panel. */
  function Flatten(panels: seq<DaySection>): seq<TimetableEntry> {
    if panels == [] then [] else panels[0].entries + Flatten(panels[1..])
  }

  /** The groups of the keys in `keys`, one after another. */
  function KeyGroups<T(!new), K(==)>(keys: seq<K>, s: seq<T>, key: T -> K): seq<T> {
    if keys == [] then [] else Filter(s, HasKey(key, keys[0])) + KeyGroups(keys[1..], s, key)
  }

  /** No key is listed twice. */
  predicate DistinctKeys<K(==)>(keys: seq<K>) {
    forall i, j :: 0 <= i < j < |keys| ==> keys[i] != keys[j]
  }

  lemma DistinctTail<K>(keys: seq<K>)
    requires keys != [] && DistinctKeys(keys)
    ensures DistinctKeys(keys[1..]) && keys[0] !in keys[1..]
  {
    assert forall i, j :: 0 <= i < j < |keys| - 1 ==> keys[1..][i] == keys[i + 1] && keys[1..][j] == keys[j + 1];
  }

  /** Filtering `s + [x]` adds `x` exactly when it passes. */
  lemma FilterSnoc<T(!new)>(s: seq<T>, p: T -> bool, x: T)
    ensures Filter(s + [x], p) == Filter(s, p) + if p(x) then [x] else []
  {
    assert (s + [x])[..|s + [x]| - 1] == s;
  }

  lemma {:induction false} KeyGroupsAppend<T(!new), K>(keys: seq<K>, s: seq<T>, key: T -> K, x: T)
    requires DistinctKeys(keys)
    ensures multiset(KeyGroups(keys, s + [x], key))
            == multiset(KeyGroups(keys, s, key)) + if key(x) in keys then multiset{x} else multiset{}
  {
    if keys != [] {
      DistinctTail(keys);
      var p := HasKey(key, keys[0]);
      FilterSnoc(s, p, x);
      KeyGroupsAppend(keys[1..], s, key, x);
      var here, here' := Filter(s, p), Filter(s + [x], p);
      var rest, rest' := KeyGroups(keys[1..], s, key), KeyGroups(keys[1..], s + [x], key);
      assert KeyGroups(keys, s, key) == here + rest;
      assert KeyGroups(keys, s + [x], key) == here' + rest';
      var extraRest: multiset<T> := if key(x) in keys[1..] then multiset{x} else multiset{};
      var first := key(x) == keys[0];
      MultisetOfGroups(here, here', rest, rest', x, first, extraRest);
      if first {
        assert key(x) !in keys[1..];
      } else {
        assert key(x) in keys <==> key(x) in keys[1..];
      }
    }
  }

  /** The multiset step of `KeyGroupsAppend`: the first group gains `x`
      or not, the rest gains `extra`. */
  lemma MultisetOfGroups<T>(here: seq<T>, here': seq<T>, rest: seq<T>, rest': seq<T>, x: T, first: bool, extra: multiset<T>)
    requires here' == here + if first then [x] else []
    requires multiset(rest') == multiset(rest) + extra
    ensures multiset(here' + rest') == multiset(here + rest) + (if first then multiset{x} else multiset{}) + extra
  {
  }

  lemma {:induction false} KeyGroupsOfNothing<T(!new), K>(keys: seq<K>, key: T -> K)
    ensures KeyGroups(keys, [], key) == []
  {
    if keys != [] {
      KeyGroupsOfNothing(keys[1..], key);
    }
  }

  /** With distinct keys covering every element, the groups of the keys
      together hold each element exactly once. */
  lemma {:induction false} KeyGroupsPermutation<T(!new), K>(keys: seq<K>, s: seq<T>, key: T -> K)
    requires DistinctKeys(keys)
    requires forall x :: x in s ==> key(x) in keys
    ensures multiset(KeyGroups(keys, s, key)) == multiset(s)
  {
    if s != [] {
      var init := s[..|s| - 1];
      var x := s[|s| - 1];
      assert s == init + [x];
      KeyGroupsPermutation(keys, init, key);
      KeyGroupsAppend(keys, init, key, x);
    } else {
      KeyGroupsOfNothing(keys, key);
    }
  }

  /** The panels built from the groups show, day by day, exactly the
      entries of that day. */
  lemma {:induction false} LayoutShowsGroups(k: nat, entries: seq<TimetableEntry>)
    requires k <= |DAY_ORDER|
    ensures Flatten(LayoutFrom(k, Grouped(entries, DayOf))) == KeyGroups(DAY_ORDER[k..], entries, DayOf)
    decreases |DAY_ORDER| - k
  {
    if k < |DAY_ORDER| {
      var byDay := Grouped(entries, DayOf);
      var day := DAY_ORDER[k];
      LayoutShowsGroups(k + 1, entries);
      GroupIsFilter(entries, DayOf, day);
      assert DAY_ORDER[k..][1..] == DAY_ORDER[k + 1..];
      var rest := LayoutFrom(k + 1, byDay);
      if Shown(byDay, day) {
        assert ([DaySection(day, byDay[day])] + rest)[1..] == rest;
      }
    }
  }

  /** The timetable shows every entry exactly once: the panels, laid out
      Monday to Sunday and then "Unknown", hold a permutation of the rows,
      since every slot normalises to one of those eight days. */
  lemma TimetableShowsEveryEntryOnce(entries: seq<TimetableEntry>)
    ensures multiset(Flatten(LayoutFrom(0, Grouped(entries, DayOf)))) == multiset(entries)
  {
    LayoutShowsGroups(0, entries);
    assert DAY_ORDER[0..] == DAY_ORDER;
    DayOrderDistinct();
    forall e | e in entries ensures DayOf(e) in DAY_ORDER {
      DayInOrder(DayOf(e));
    }
    KeyGroupsPermutation(DAY_ORDER, entries, DayOf);
  }

  // ---------------------------------------------------------------------
  // safe

  /** `safe(s)`: null becomes the empty text, anything else is trimmed. */
  function Safe(s: Option<string>): (r: string)
    ensures s.None? ==> r == []
    ensures r != [] ==> !IsTrimmed(r[0]) && !IsTrimmed(r[|r| - 1])
    ensures s.Some? ==> exists lo, hi :: TrimmedSlice(s.value, r, lo, hi)
  {
    match s
    case None => []
    case Some(text) => Trim(text)
  }

  /** `safe` is the one slice `trim` leaves: a slice of the text with no
      trimmable character at either end, cut by dropping only trimmable
      characters, is its result. */
  lemma SafeIsTheTrimmedSlice(text: string, r: string, lo: int, hi: int)
    requires TrimmedSlice(text, r, lo, hi)
    requires r != [] ==> !IsTrimmed(r[0]) && !IsTrimmed(r[|r| - 1])
    ensures Safe(Some(text)) == r
  {
    var t := Safe(Some(text));
    var tlo, thi :| TrimmedSlice(text, t, tlo, thi);
    TrimmedSliceUnique(text, r, lo, hi, t, tlo, thi);
  }

  /** Applying `safe` to its own output changes nothing. */
  lemma SafeIdempotent(s: Option<string>)
    ensures Safe(Some(Safe(s))) == Safe(s)
  {
    var r := Safe(s);
    if r != [] {
      assert TrimStart(r) == r;
      assert TrimEnd(r) == r;
    }
  }
}
