/** The differential deal-to-sheet sync (mazrica/sync_to_sheets.py): the 17-column row
    layout, the scan of a deal name for user count and contract period, the deal filter,
    and the reconciliation of the filtered deals against the ids already in the sheet. */
module DiffSync {
  import opened Base
  import opened Seqs
  import opened Text
  import opened Cells
  import opened MazricaClient

  /** The header row of the sheet. */
  const Headers: seq<string> := [
    "案件ID", "案件名", "取引先", "取引先ID", "案件タイプ", "フェーズ", "担当者",
    "商品名", "数量", "単価", "商品金額", "案件金額", "受注予定日", "作成日時", "更新日時",
    "ユーザー数", "期間"]

  const ColId: nat := 0
  const ColProductName: nat := 7
  const ColQuantity: nat := 8
  const ColUnitPrice: nat := 9
  const ColProductAmount: nat := 10
  const ColUsers: nat := 15
  const ColPeriod: nat := 16

  /** The four columns that differ between the rows of one deal. */
  predicate IsProductColumn(c: int) {
    ColProductName <= c <= ColProductAmount
  }

  // ---------------------------------------------------------------------------
  // Scanning a deal name for "N ユーザー" and "N カ月"

  const UsersUnits: seq<string> := ["ユーザー"]
  const PeriodUnits: seq<string> := ["カ月", "ヶ月", "か月"]

  /** A match of `(\d+|X)` followed by a unit: where it starts, the count, and the unit. */
  datatype Token = Token(pos: nat, count: string, unit: string)

  /** What `(\d+|X)` can capture: a run of digits or the placeholder `X`. */
  predicate IsCount(c: string) {
    c == "X" || (|c| > 0 && AllDigits(c))
  }

  /** Units never begin with a digit, so a digit run cannot run into one. */
  predicate UnitsStartWithNonDigit(units: seq<string>) {
    forall k :: 0 <= k < |units| ==> |units[k]| > 0 && !IsDigit(units[k][0])
  }

  /** The end of the longest run of digits starting at `i` (greedy `\d+`). */
  function DigitRunEnd(s: string, i: nat): (j: nat)
    requires i <= |s|
    decreases |s| - i
    ensures i <= j <= |s|
    ensures forall k :: i <= k < j ==> IsDigit(s[k])
    ensures j == |s| || !IsDigit(s[j])
  {
    if i < |s| && IsDigit(s[i]) then DigitRunEnd(s, i + 1) else i
  }

  /** `units[k]` occurs at position `j` and no unit listed before it does. */
  predicate FirstUnitAt(s: string, j: nat, units: seq<string>, k: int) {
    0 <= k < |units| && OccursAt(s, j, units[k]) &&
    forall m :: 0 <= m < k ==> !OccursAt(s, j, units[m])
  }

  /** The first of `units`, in alternation order, that occurs at position `j`. */
  function UnitAt(s: string, j: nat, units: seq<string>): (u: Option<string>)
    ensures u.Some? ==> u.value in units && OccursAt(s, j, u.value)
    ensures u.None? ==> forall k :: 0 <= k < |units| ==> !OccursAt(s, j, units[k])
  {
    if units == [] then None
    else if OccursAt(s, j, units[0]) then Some(units[0])
    else UnitAt(s, j, units[1..])
  }

  /** The unit `UnitAt` picks is the first listed one that occurs: none listed before it
      occurs at `j`. */
  lemma {:induction false} UnitAtIsFirst(s: string, j: nat, units: seq<string>)
    ensures UnitAt(s, j, units).Some? ==>
      exists k :: FirstUnitAt(s, j, units, k) && units[k] == UnitAt(s, j, units).value
  {
    if units != [] && !OccursAt(s, j, units[0]) && UnitAt(s, j, units[1..]).Some? {
      UnitAtIsFirst(s, j, units[1..]);
      var k :| FirstUnitAt(s, j, units[1..], k) && units[1..][k] == UnitAt(s, j, units[1..]).value;
      assert FirstUnitAt(s, j, units, k + 1) by {
        forall m | 0 <= m < k + 1 ensures !OccursAt(s, j, units[m]) {
          if m > 0 {
            assert units[m] == units[1..][m - 1];
          }
        }
      }
    } else if units != [] && OccursAt(s, j, units[0]) {
      assert FirstUnitAt(s, j, units, 0);
    }
  }

  /** The three period units start with different characters, so at most one of them
      occurs at any position and the alternation order never decides between two. */
  lemma PeriodUnitsExclusive(s: string, j: nat, k: nat, m: nat)
    requires k < |PeriodUnits| && m < |PeriodUnits|
    requires OccursAt(s, j, PeriodUnits[k]) && OccursAt(s, j, PeriodUnits[m])
    ensures k == m
  {
    assert s[j] == s[j..j + |PeriodUnits[k]|][0] == PeriodUnits[k][0];
    assert s[j] == s[j..j + |PeriodUnits[m]|][0] == PeriodUnits[m][0];
  }

  /** The regex `(\d+|X)(unit)` tried at position `i`: the greedy digit run first,
      then the letter `X`. */
  function MatchAt(s: string, i: nat, units: seq<string>): (t: Option<Token>)
    requires i < |s|
    ensures t.Some? ==> t.value.pos == i && IsCount(t.value.count) && t.value.unit in units
    ensures t.Some? ==> OccursAt(s, i, t.value.count + t.value.unit)
    ensures t.Some? ==> OccursAt(s, i, t.value.count) && UnitAt(s, i + |t.value.count|, units) == Some(t.value.unit)
    ensures t.Some? && t.value.count != "X" ==> DigitRunEnd(s, i) == i + |t.value.count|
  {
    var j := DigitRunEnd(s, i);
    if j > i && UnitAt(s, j, units).Some? then
      var t := Token(i, s[i..j], UnitAt(s, j, units).value);
      DigitTokenFacts(s, i, j, units, t);
      Some(t)
    else if s[i] == 'X' && UnitAt(s, i + 1, units).Some? then
      var t := Token(i, "X", UnitAt(s, i + 1, units).value);
      XTokenFacts(s, i, units, t);
      Some(t)
    else
      None
  }

  /** The facts `MatchAt` states, for a match on the greedy digit run `s[i..j]`. */
  lemma DigitTokenFacts(s: string, i: nat, j: nat, units: seq<string>, t: Token)
    requires i < |s| && i < j == DigitRunEnd(s, i) && UnitAt(s, j, units).Some?
    requires t == Token(i, s[i..j], UnitAt(s, j, units).value)
    ensures t.pos == i && IsCount(t.count) && t.unit in units
    ensures OccursAt(s, i, t.count + t.unit)
    ensures OccursAt(s, i, t.count) && UnitAt(s, i + |t.count|, units) == Some(t.unit)
    ensures DigitRunEnd(s, i) == i + |t.count|
  {
    DigitRunIsCount(s, i, j);
    CountThenUnit(s, i, t.count, t.unit);
  }

  /** The facts `MatchAt` states, for a match on the letter `X`. */
  lemma XTokenFacts(s: string, i: nat, units: seq<string>, t: Token)
    requires i < |s| && s[i] == 'X' && UnitAt(s, i + 1, units).Some?
    requires t == Token(i, "X", UnitAt(s, i + 1, units).value)
    ensures t.pos == i && IsCount(t.count) && t.unit in units
    ensures OccursAt(s, i, t.count + t.unit)
    ensures OccursAt(s, i, t.count) && UnitAt(s, i + |t.count|, units) == Some(t.unit)
  {
    assert s[i..i + 1] == "X";
    CountThenUnit(s, i, t.count, t.unit);
  }

  /** A non-empty digit run is a count `\d+` can capture. */
  lemma DigitRunIsCount(s: string, i: nat, j: nat)
    requires i < j <= |s| && forall k :: i <= k < j ==> IsDigit(s[k])
    ensures IsCount(s[i..j])
  {
    assert forall k :: 0 <= k < j - i ==> s[i..j][k] == s[i + k];
  }

  /** A count at `i` followed by a unit right after it is the two together at `i`. */
  lemma CountThenUnit(s: string, i: nat, c: string, u: string)
    requires OccursAt(s, i, c) && OccursAt(s, i + |c|, u)
    ensures OccursAt(s, i, c + u)
  {
    assert s[i..i + |c| + |u|] == s[i..i + |c|] + s[i + |c|..i + |c| + |u|];
  }

  /** `re.search` from position `i`: the leftmost position where the pattern matches. */
  function SearchFrom(s: string, units: seq<string>, i: nat): (t: Option<Token>)
    requires i <= |s|
    decreases |s| - i
    ensures t.Some? ==> i <= t.value.pos < |s| && MatchAt(s, t.value.pos, units) == t
    ensures t.Some? ==> forall k :: i <= k < t.value.pos ==> MatchAt(s, k, units).None?
    ensures t.None? ==> forall k :: i <= k < |s| ==> MatchAt(s, k, units).None?
  {
    if i == |s| then None
    else if MatchAt(s, i, units).Some? then MatchAt(s, i, units)
    else SearchFrom(s, units, i + 1)
  }

  /** A unit starts at position `k` right after a digit or an `X`. */
  predicate UnitAfterCount(s: string, k: int, units: seq<string>) {
    1 <= k <= |s| && UnitAt(s, k, units).Some? && (IsDigit(s[k - 1]) || s[k - 1] == 'X')
  }

  /** The pattern matches somewhere exactly when some unit stands right after a digit or `X`. */
  lemma SearchFindsIff(s: string, units: seq<string>)
    requires UnitsStartWithNonDigit(units)
    ensures SearchFrom(s, units, 0).Some? <==> exists k :: UnitAfterCount(s, k, units)
  {
    var t := SearchFrom(s, units, 0);
    if t.Some? {
      var i := t.value.pos;
      var j := DigitRunEnd(s, i);
      if j > i && UnitAt(s, j, units).Some? {
        assert UnitAfterCount(s, j, units);
      } else {
        assert UnitAfterCount(s, i + 1, units);
      }
    }
    if k :| UnitAfterCount(s, k, units) {
      var u := UnitAt(s, k, units).value;
      assert u in units;
      assert s[k] == u[0] by {
        assert s[k..k + |u|][0] == u[0];
      }
      if IsDigit(s[k - 1]) {
        assert DigitRunEnd(s, k) == k;
        assert DigitRunEnd(s, k - 1) == k;
      }
      assert MatchAt(s, k - 1, units).Some?;
    }
  }

  /** A count followed by one of the period units. */
  predicate IsPeriod(p: string) {
    exists k :: 0 <= k < |PeriodUnits| && |p| > |PeriodUnits[k]| &&
      p[|p| - |PeriodUnits[k]|..] == PeriodUnits[k] && IsCount(p[..|p| - |PeriodUnits[k]|])
  }

  /** `extract_users_and_period`: the count before the first "ユーザー", and the count
      together with its unit before the first "カ月", "ヶ月" or "か月"; `""` when absent. */
  function ExtractUsersAndPeriod(name: string): (r: (string, string))
    ensures r.0 == "" || (IsCount(r.0) && Contains(name, r.0 + "ユーザー"))
    ensures r.1 == "" || IsPeriod(r.1)
    ensures r.1 == "" || Contains(name, r.1)
  {
    (UsersCount(name), PeriodText(name))
  }

  /** The captured count of the first user-count match, or `""`. */
  function UsersCount(name: string): (u: string)
    ensures u == "" || (IsCount(u) && Contains(name, u + "ユーザー"))
  {
    var t := SearchFrom(name, UsersUnits, 0);
    if t.Some? then
      assert OccursAt(name, t.value.pos, t.value.count + "ユーザー");
      t.value.count
    else ""
  }

  /** The whole text of the first period match, count and unit, or `""`. */
  function PeriodText(name: string): (p: string)
    ensures p == "" || (IsPeriod(p) && Contains(name, p))
  {
    var t := SearchFrom(name, PeriodUnits, 0);
    if t.Some? then
      var p := t.value.count + t.value.unit;
      var k :| 0 <= k < |PeriodUnits| && PeriodUnits[k] == t.value.unit;
      assert p[..|t.value.count|] == t.value.count;
      assert p[|t.value.count|..] == t.value.unit;
      assert OccursAt(name, t.value.pos, p);
      p
    else ""
  }

  /** The user count is empty exactly when no digit or `X` stands right before "ユーザー". */
  lemma UsersEmptyIff(name: string)
    ensures ExtractUsersAndPeriod(name).0 == "" <==> !exists k :: UnitAfterCount(name, k, UsersUnits)
  {
    SearchFindsIff(name, UsersUnits);
    var t := SearchFrom(name, UsersUnits, 0);
    if t.Some? {
      assert t.value.count != "";
    }
  }

  /** The period is empty exactly when no digit or `X` stands right before "カ月", "ヶ月" or "か月". */
  lemma PeriodEmptyIff(name: string)
    ensures ExtractUsersAndPeriod(name).1 == "" <==> !exists k :: UnitAfterCount(name, k, PeriodUnits)
  {
    SearchFindsIff(name, PeriodUnits);
    var t := SearchFrom(name, PeriodUnits, 0);
    if t.Some? {
      assert |t.value.count| > 0;
    }
  }

  /** The sample deal name of the function's documentation. */
  const DocName: string := "CiviLink_会社名_部署_機能_無料トライアル_10ユーザー_3カ月"

  lemma DocNamePlainUpTo27()
    ensures |DocName| == 37
    ensures forall k :: 0 <= k < 27 ==> !IsDigit(DocName[k]) && DocName[k] != 'X'
  {
  }

  lemma DocNameUsersAt27()
    ensures MatchAt(DocName, 27, UsersUnits) == Some(Token(27, "10", "ユーザー"))
  {
    assert DocName[27] == '1' && DocName[28] == '0' && DocName[29] == 'ユ';
    assert DigitRunEnd(DocName, 27) == 29;
    assert DocName[27..29] == "10";
    assert DocName[29..33] == "ユーザー";
    assert UnitAt(DocName, 29, UsersUnits) == Some("ユーザー");
  }

  lemma DocNameUsers()
    ensures SearchFrom(DocName, UsersUnits, 0) == Some(Token(27, "10", "ユーザー"))
  {
    DocNamePlainUpTo27();
    NoCountBefore(DocName, UsersUnits, 0, 27);
    DocNameUsersAt27();
  }

  lemma DocNameNoPeriodAt27Or28()
    ensures MatchAt(DocName, 27, PeriodUnits).None? && MatchAt(DocName, 28, PeriodUnits).None?
  {
    assert DocName[27] == '1' && DocName[28] == '0' && DocName[29] == 'ユ';
    assert DigitRunEnd(DocName, 28) == 29;
    assert DigitRunEnd(DocName, 27) == 29;
    assert DocName[29..31] == "ユー";
    assert UnitAt(DocName, 29, PeriodUnits).None?;
  }

  lemma DocNamePlainFrom29To34()
    ensures forall k :: 29 <= k < 34 ==> !IsDigit(DocName[k]) && DocName[k] != 'X'
  {
  }

  lemma DocNamePeriodAt34()
    ensures MatchAt(DocName, 34, PeriodUnits) == Some(Token(34, "3", "カ月"))
  {
    assert DocName[34] == '3' && DocName[35] == 'カ';
    assert DigitRunEnd(DocName, 34) == 35;
    assert DocName[34..35] == "3";
    assert DocName[35..37] == "カ月";
    assert UnitAt(DocName, 35, PeriodUnits) == Some("カ月");
  }

  lemma DocNamePeriod()
    ensures SearchFrom(DocName, PeriodUnits, 0) == Some(Token(34, "3", "カ月"))
  {
    DocNamePlainUpTo27();
    NoCountBefore(DocName, PeriodUnits, 0, 27);
    DocNameNoPeriodAt27Or28();
    DocNamePlainFrom29To34();
    NoCountBefore(DocName, PeriodUnits, 29, 34);
    DocNamePeriodAt34();
  }

  /** The example of the function's documentation: 10 users for 3 months. */
  lemma ExtractDocExample(name: string)
    requires name == DocName
    ensures ExtractUsersAndPeriod(name) == ("10", "3カ月")
  {
    DocNameUsersCount(name);
    DocNamePeriodText(name);
  }

  lemma DocNameUsersCount(name: string)
    requires name == DocName
    ensures UsersCount(name) == "10"
  {
    DocNameUsers();
  }

  lemma DocNamePeriodText(name: string)
    requires name == DocName
    ensures PeriodText(name) == "3カ月"
  {
    DocNamePeriod();
    assert "3" + "カ月" == "3カ月";
  }

  /** Positions holding neither a digit nor `X` start no match. */
  lemma {:induction false} NoCountBefore(s: string, units: seq<string>, i: nat, j: nat)
    requires i <= j <= |s|
    requires forall k :: i <= k < j ==> !IsDigit(s[k]) && s[k] != 'X'
    ensures forall k :: i <= k < j ==> MatchAt(s, k, units).None?
    ensures SearchFrom(s, units, i) == SearchFrom(s, units, j)
    decreases j - i
  {
    if i < j {
      NoMatchAt(s, units, i);
      assert SearchFrom(s, units, i) == SearchFrom(s, units, i + 1);
      NoCountBefore(s, units, i + 1, j);
    }
  }

  /** A position holding neither a digit nor `X` starts no match. */
  lemma NoMatchAt(s: string, units: seq<string>, i: nat)
    requires i < |s| && !IsDigit(s[i]) && s[i] != 'X'
    ensures MatchAt(s, i, units).None?
  {
    assert DigitRunEnd(s, i) == i;
  }

  /** A count `c` stands at position `i` with one of `units` right after it, so that
      `(\d+|X)(unit)` can match there capturing `c`. */
  predicate CountUnitAt(s: string, i: int, c: string, units: seq<string>) {
    IsCount(c) && OccursAt(s, i, c) && UnitAt(s, i + |c|, units).Some?
  }

  /** The unit of `t` is the first of `units` that occurs right after its count. */
  predicate UnitFollows(s: string, t: Token, units: seq<string>) {
    UnitAt(s, t.pos + |t.count|, units) == Some(t.unit)
  }

  /** `c` at `i` is the leftmost such match: no count stands before a unit earlier on. */
  ghost predicate FirstCountUnitAt(s: string, i: int, c: string, units: seq<string>) {
    CountUnitAt(s, i, c, units) && forall k, d :: 0 <= k < i ==> !CountUnitAt(s, k, d, units)
  }

  /** Neither "ユーザー" nor the period units begin with a digit. */
  lemma UnitsHold()
    ensures UnitsStartWithNonDigit(UsersUnits) && UnitsStartWithNonDigit(PeriodUnits)
  {
  }

  /** The digit run from `i` ends at `j` when everything from `i` to `j` is a digit and
      position `j` is not. */
  lemma {:induction false} DigitRunEndAt(s: string, i: nat, j: nat)
    requires i <= j <= |s| && forall k :: i <= k < j ==> IsDigit(s[k])
    requires j == |s| || !IsDigit(s[j])
    ensures DigitRunEnd(s, i) == j
    decreases j - i
  {
    if i < j {
      DigitRunEndAt(s, i + 1, j);
    }
  }

  /** A count standing before a unit is the whole digit run there, or `X`: a unit never
      starts with a digit, so it cannot cut a run short. */
  lemma CountIsWholeRun(s: string, i: nat, c: string, units: seq<string>)
    requires UnitsStartWithNonDigit(units) && CountUnitAt(s, i, c, units)
    ensures c == "X" ==> s[i] == 'X' && DigitRunEnd(s, i) == i
    ensures c != "X" ==> DigitRunEnd(s, i) == i + |c| && s[i..i + |c|] == c
  {
    var u := UnitAt(s, i + |c|, units).value;
    var k :| 0 <= k < |units| && units[k] == u;
    assert s[i + |c|] == u[0] by {
      assert s[i + |c|..i + |c| + |u|][0] == u[0];
    }
    if c == "X" {
      assert s[i] == s[i..i + 1][0];
    } else {
      assert forall m :: i <= m < i + |c| ==> IsDigit(s[m]) by {
        forall m | i <= m < i + |c| ensures IsDigit(s[m]) {
          assert s[m] == s[i..i + |c|][m - i];
        }
      }
      DigitRunEndAt(s, i, i + |c|);
    }
  }

  /** With units that start with a non-digit, the pattern matches at `i` exactly when a
      count stands there before a unit, and the match captures that count and the first
      unit, in alternation order, that follows it. */
  lemma MatchAtIff(s: string, i: nat, units: seq<string>)
    requires i < |s| && UnitsStartWithNonDigit(units)
    ensures MatchAt(s, i, units).Some? <==> exists c :: CountUnitAt(s, i, c, units)
    ensures forall c :: CountUnitAt(s, i, c, units) ==>
      MatchAt(s, i, units) == Some(Token(i, c, UnitAt(s, i + |c|, units).value))
  {
    forall c | CountUnitAt(s, i, c, units)
      ensures MatchAt(s, i, units) == Some(Token(i, c, UnitAt(s, i + |c|, units).value))
    {
      MatchCapturesCount(s, i, c, units);
    }
    if MatchAt(s, i, units).Some? {
      MatchIsCount(s, i, units);
    }
  }

  /** A count standing before a unit at `i` is what the pattern captures there. */
  lemma MatchCapturesCount(s: string, i: nat, c: string, units: seq<string>)
    requires i < |s| && UnitsStartWithNonDigit(units) && CountUnitAt(s, i, c, units)
    ensures MatchAt(s, i, units) == Some(Token(i, c, UnitAt(s, i + |c|, units).value))
  {
    CountIsWholeRun(s, i, c, units);
  }

  /** What the pattern captures at `i` is a count standing before a unit. */
  lemma MatchIsCount(s: string, i: nat, units: seq<string>)
    requires i < |s| && MatchAt(s, i, units).Some?
    ensures CountUnitAt(s, i, MatchAt(s, i, units).value.count, units)
  {
  }

  /** `re.search` finds the leftmost count standing before a unit, with its whole digit
      run, and finds nothing exactly when there is none. */
  lemma SearchFindsFirst(s: string, units: seq<string>)
    requires UnitsStartWithNonDigit(units)
    ensures SearchFrom(s, units, 0).None? <==> forall k, c :: !CountUnitAt(s, k, c, units)
    ensures SearchFrom(s, units, 0).Some? ==>
      FirstCountUnitAt(s, SearchFrom(s, units, 0).value.pos, SearchFrom(s, units, 0).value.count, units) &&
      UnitFollows(s, SearchFrom(s, units, 0).value, units)
  {
    if SearchFrom(s, units, 0).Some? {
      SearchFoundFirst(s, units);
    } else {
      SearchFoundNone(s, units);
    }
  }

  /** A token `re.search` returns is the leftmost count standing before a unit. */
  lemma SearchFoundFirst(s: string, units: seq<string>)
    requires UnitsStartWithNonDigit(units)
    requires SearchFrom(s, units, 0).Some?
    ensures CountUnitAt(s, SearchFrom(s, units, 0).value.pos, SearchFrom(s, units, 0).value.count, units)
    ensures FirstCountUnitAt(s, SearchFrom(s, units, 0).value.pos, SearchFrom(s, units, 0).value.count, units)
    ensures UnitFollows(s, SearchFrom(s, units, 0).value, units)
  {
    FirstMatchIsFirstCount(s, units, SearchFrom(s, units, 0).value);
  }

  /** A match at `t.pos` with none before it is the leftmost count before a unit. */
  lemma FirstMatchIsFirstCount(s: string, units: seq<string>, t: Token)
    requires UnitsStartWithNonDigit(units)
    requires t.pos < |s| && MatchAt(s, t.pos, units) == Some(t)
    requires forall k :: 0 <= k < t.pos ==> MatchAt(s, k, units).None?
    ensures CountUnitAt(s, t.pos, t.count, units) && FirstCountUnitAt(s, t.pos, t.count, units)
    ensures UnitFollows(s, t, units)
  {
    NoCountUnitBefore(s, units, t.pos);
  }

  /** When `re.search` finds nothing, no count stands before a unit anywhere. */
  lemma SearchFoundNone(s: string, units: seq<string>)
    requires UnitsStartWithNonDigit(units)
    requires SearchFrom(s, units, 0).None?
    ensures forall k, c :: !CountUnitAt(s, k, c, units)
  {
    NoCountUnitBefore(s, units, |s|);
    forall k, c ensures !CountUnitAt(s, k, c, units) {
      if IsCount(c) {
        assert |c| > 0;
      }
    }
  }

  /** Where the pattern matches at no position before `bound`, no count stands before a unit there. */
  lemma NoCountUnitBefore(s: string, units: seq<string>, bound: nat)
    requires UnitsStartWithNonDigit(units)
    requires bound <= |s| && forall k :: 0 <= k < bound ==> MatchAt(s, k, units).None?
    ensures forall k, c :: 0 <= k < bound ==> !CountUnitAt(s, k, c, units)
  {
    forall k, c | 0 <= k < bound ensures !CountUnitAt(s, k, c, units) {
      MatchAtIff(s, k, units);
    }
  }

  /** At most one count is the leftmost one before a unit. */
  lemma FirstCountUnitUnique(s: string, i1: nat, c1: string, i2: nat, c2: string, units: seq<string>)
    requires UnitsStartWithNonDigit(units)
    requires FirstCountUnitAt(s, i1, c1, units) && FirstCountUnitAt(s, i2, c2, units)
    ensures i1 == i2 && c1 == c2
  {
    assert i1 == i2;
    assert |c1| > 0;
    MatchAtIff(s, i1, units);
  }

  /** The user count is the count of the leftmost "ユーザー" match, its whole digit run or
      `X`, and empty exactly when there is no match. */
  lemma UsersCountIsFirst(name: string)
    ensures UsersCount(name) == "" <==> forall k, c :: !CountUnitAt(name, k, c, UsersUnits)
    ensures UsersCount(name) != "" ==> exists k :: FirstCountUnitAt(name, k, UsersCount(name), UsersUnits)
  {
    UnitsHold();
    SearchFindsFirst(name, UsersUnits);
  }

  /** The period is the count and unit of the leftmost "カ月", "ヶ月" or "か月" match, and
      empty exactly when there is no match. */
  lemma PeriodTextIsFirst(name: string)
    ensures PeriodText(name) == "" <==> forall k, c :: !CountUnitAt(name, k, c, PeriodUnits)
    ensures PeriodText(name) != "" ==>
      exists k, c :: (FirstCountUnitAt(name, k, c, PeriodUnits) &&
        PeriodText(name) == c + UnitAt(name, k + |c|, PeriodUnits).value)
  {
    UnitsHold();
    SearchFindsFirst(name, PeriodUnits);
    var t := SearchFrom(name, PeriodUnits, 0);
    if t.Some? {
      assert |t.value.count + t.value.unit| > 0;
    }
  }

  /** Of two user counts, the first one in the name is the one reported. */
  lemma LeftmostUsersExample(name: string)
    requires name == "2ユーザー_10ユーザー"
    ensures UsersCount(name) == "2"
  {
    assert name[0] == '2' && name[1] == 'ユ';
    assert DigitRunEnd(name, 0) == 1;
    assert name[0..1] == "2";
    assert name[1..5] == "ユーザー";
    assert UnitAt(name, 1, UsersUnits) == Some("ユーザー");
    assert MatchAt(name, 0, UsersUnits).Some?;
  }

  // ---------------------------------------------------------------------------
  // Deal to rows

  /** The leading `base_data` cells every row of a deal shares. */
  function BaseCells(deal: Deal): (cells: Row)
    ensures |cells| == 7 && cells[ColId] == Int(deal.id)
  {
    [Int(deal.id),
     Str(deal.name),
     TextOrBlank(deal.customerName),
     IntOrBlank(deal.customerId),
     TextOrBlank(deal.dealTypeName),
     TextOrBlank(deal.phaseName),
     TextOrBlank(deal.userName)]
  }

  /** The cells after the product columns: deal amount, dates, user count and period. */
  function TailCells(deal: Deal): (cells: Row)
    ensures |cells| == 6
  {
    var (users, period) := ExtractUsersAndPeriod(deal.name);
    [NumOrBlank(deal.amount),
     TextOrBlank(deal.expectedContractDate),
     Str(deal.createdAt),
     Str(deal.updatedAt),
     Str(users),
     Str(period)]
  }

  /** The product cells of a detail row; an empty detail name falls back to the deal's product name. */
  function DetailCells(deal: Deal, pd: ProductDetail): (cells: Row)
    ensures |cells| == 4
  {
    [Str(if pd.productName != "" then pd.productName else deal.productName.GetOr("")),
     NumOrBlank(pd.quantity),
     NumOrBlank(pd.unitPrice),
     NumOrBlank(pd.amount)]
  }

  /** The product cells of the placeholder row of a deal without product details. */
  function PlaceholderCells(deal: Deal): (cells: Row)
    ensures |cells| == 4
  {
    [TextOrBlank(deal.productName), Blank, Blank, Blank]
  }

  /** A row of the deal with the given product cells. */
  function MakeRow(deal: Deal, product: Row): (r: Row)
    requires |product| == 4
    ensures |r| == |Headers|
  {
    BaseCells(deal) + product + TailCells(deal)
  }

  /** The rows `deal_to_rows` produces for a deal. */
  function Rows(deal: Deal): (rows: seq<Row>)
    ensures |rows| == if deal.productDetails == [] then 1 else |deal.productDetails|
    ensures forall i :: 0 <= i < |rows| ==> |rows[i]| == |Headers| && rows[i][ColId] == Int(deal.id)
  {
    var details := deal.productDetails;
    if details == [] then
      [MakeRow(deal, PlaceholderCells(deal))]
    else
      seq(|details|, i requires 0 <= i < |details| => MakeRow(deal, DetailCells(deal, details[i])))
  }

  /** All rows of a deal agree outside the four product columns, and their last two cells
      are the user count and the period scanned from the deal name. */
  lemma RowsShareDealColumns(deal: Deal)
    ensures forall i, j, c ::
      (0 <= i < |Rows(deal)| && 0 <= j < |Rows(deal)| && 0 <= c < |Headers| && !IsProductColumn(c)) ==>
      Rows(deal)[i][c] == Rows(deal)[j][c]
    ensures forall i :: 0 <= i < |Rows(deal)| ==>
      Rows(deal)[i][ColUsers] == Str(ExtractUsersAndPeriod(deal.name).0) &&
      Rows(deal)[i][ColPeriod] == Str(ExtractUsersAndPeriod(deal.name).1)
  {
    var rows := Rows(deal);
    forall i | 0 <= i < |rows|
      ensures rows[i][..7] == BaseCells(deal) && rows[i][11..] == TailCells(deal)
    {
      RowSplits(deal, i);
    }
    forall i, j, c | 0 <= i < |rows| && 0 <= j < |rows| && 0 <= c < |Headers| && !IsProductColumn(c)
      ensures rows[i][c] == rows[j][c]
    {
      SameOutsideProduct(rows[i], rows[j], BaseCells(deal), TailCells(deal), c);
    }
    forall i | 0 <= i < |rows|
      ensures rows[i][ColUsers] == Str(ExtractUsersAndPeriod(deal.name).0)
      ensures rows[i][ColPeriod] == Str(ExtractUsersAndPeriod(deal.name).1)
    {
      assert rows[i][ColUsers] == rows[i][11..][4];
      assert rows[i][ColPeriod] == rows[i][11..][5];
    }
  }

  /** Row `i` of a deal is the shared cells, four product cells and the shared tail. */
  lemma RowSplits(deal: Deal, i: nat)
    requires i < |Rows(deal)|
    ensures Rows(deal)[i][..7] == BaseCells(deal) && Rows(deal)[i][11..] == TailCells(deal)
  {
    var product := if deal.productDetails == [] then PlaceholderCells(deal) else DetailCells(deal, deal.productDetails[i]);
    assert Rows(deal)[i] == BaseCells(deal) + product + TailCells(deal);
  }

  /** Two rows with the same first seven and the same last six cells agree outside the
      product columns. */
  lemma SameOutsideProduct(r1: Row, r2: Row, base: Row, tail: Row, c: nat)
    requires |r1| == |r2| == |Headers| && c < |Headers| && !IsProductColumn(c)
    requires r1[..7] == base == r2[..7] && r1[11..] == tail == r2[11..]
    ensures r1[c] == r2[c]
  {
    if c < 7 {
      assert r1[c] == r1[..7][c] && r2[c] == r2[..7][c];
    } else {
      assert r1[c] == r1[11..][c - 11] && r2[c] == r2[11..][c - 11];
    }
  }

  /** A deal with product details has one row per detail, in order, carrying that detail's
      product cells; a deal without has one row with the deal's product name and three blanks. */
  lemma RowsProductCells(deal: Deal)
    ensures deal.productDetails == [] ==>
      Rows(deal)[0][ColProductName] == TextOrBlank(deal.productName) &&
      Rows(deal)[0][ColQuantity] == Blank && Rows(deal)[0][ColUnitPrice] == Blank &&
      Rows(deal)[0][ColProductAmount] == Blank
    ensures forall i :: 0 <= i < |deal.productDetails| ==>
      var pd := deal.productDetails[i];
      Rows(deal)[i][ColProductName] ==
        Str(if pd.productName != "" then pd.productName else deal.productName.GetOr("")) &&
      Rows(deal)[i][ColQuantity] == NumOrBlank(pd.quantity) &&
      Rows(deal)[i][ColUnitPrice] == NumOrBlank(pd.unitPrice) &&
      Rows(deal)[i][ColProductAmount] == NumOrBlank(pd.amount)
  {
    var rows := Rows(deal);
    forall i | 0 <= i < |rows|
      ensures rows[i][7..11] == if deal.productDetails == [] then PlaceholderCells(deal)
                                else DetailCells(deal, deal.productDetails[i])
    {
      var product := if deal.productDetails == [] then PlaceholderCells(deal) else DetailCells(deal, deal.productDetails[i]);
      assert rows[i] == BaseCells(deal) + product + TailCells(deal);
    }
    forall i | 0 <= i < |rows|
      ensures forall c :: 7 <= c < 11 ==> rows[i][c] == rows[i][7..11][c - 7]
    {
    }
  }

  /** The cells of a row that come from the deal itself: id and name, then customer, deal
      type, phase and user blanked when falsy, then the deal amount blanked only when
      `None`, the expected contract date blanked when falsy, and the two timestamps. */
  predicate DealCells(deal: Deal, row: Row) {
    |row| >= 15 &&
    row[0] == Int(deal.id) && row[1] == Str(deal.name) &&
    row[2] == TextOrBlank(deal.customerName) && row[3] == IntOrBlank(deal.customerId) &&
    row[4] == TextOrBlank(deal.dealTypeName) && row[5] == TextOrBlank(deal.phaseName) &&
    row[6] == TextOrBlank(deal.userName) &&
    row[11] == NumOrBlank(deal.amount) && row[12] == TextOrBlank(deal.expectedContractDate) &&
    row[13] == Str(deal.createdAt) && row[14] == Str(deal.updatedAt)
  }

  /** Every row of a deal carries the deal's own cells in columns 0 to 6 and 11 to 14. */
  lemma RowsDealColumns(deal: Deal)
    ensures forall i :: 0 <= i < |Rows(deal)| ==> DealCells(deal, Rows(deal)[i])
  {
    var rows := Rows(deal);
    forall i | 0 <= i < |rows| ensures DealCells(deal, rows[i]) {
      var product := if deal.productDetails == [] then PlaceholderCells(deal) else DetailCells(deal, deal.productDetails[i]);
      assert rows[i] == MakeRow(deal, product);
      MakeRowDealCells(deal, product);
    }
  }

  /** A row built for the deal, whatever its product cells, carries the deal's own cells. */
  lemma MakeRowDealCells(deal: Deal, product: Row)
    requires |product| == 4
    ensures DealCells(deal, MakeRow(deal, product))
  {
    var row := MakeRow(deal, product);
    var base := BaseCells(deal);
    var tail := TailCells(deal);
    assert forall c :: 0 <= c < 7 ==> row[c] == base[c];
    assert forall c :: 11 <= c < 15 ==> row[c] == tail[c - 11];
  }

  /** `deal_to_rows`: appends one row per product detail, in order, or the single
      placeholder row when there are none. */
  method DealToRows(deal: Deal) returns (rows: seq<Row>)
    ensures rows == Rows(deal)
  {
    rows := [];
    var details := deal.productDetails;
    if details != [] {
      var i := 0;
      while i < |details|
        invariant 0 <= i <= |details|
        invariant |rows| == i
        invariant forall k :: 0 <= k < i ==> rows[k] == MakeRow(deal, DetailCells(deal, details[k]))
      {
        var pd := details[i];
        var row := MakeRow(deal, DetailCells(deal, pd));
        rows := rows + [row];
        i := i + 1;
      }
    } else {
      var row := MakeRow(deal, PlaceholderCells(deal));
      rows := rows + [row];
    }
  }

  // ---------------------------------------------------------------------------
  // Filtering

  /** Case-insensitive substring hit of the filter on a non-empty product name. */
  predicate NameHit(name: string, filter: string) {
    name != "" && Contains(Lower(name), Lower(filter))
  }

  /** The filter hits the deal's own product name or the name of one of its details. */
  predicate ProductHit(deal: Deal, filter: string) {
    (deal.productName.Some? && NameHit(deal.productName.value, filter)) ||
    exists i :: 0 <= i < |deal.productDetails| && NameHit(deal.productDetails[i].productName, filter)
  }

  /** The loop over the product details, from the `i`-th on. */
  function AnyDetailHit(details: seq<ProductDetail>, filter: string, i: nat): (b: bool)
    requires i <= |details|
    decreases |details| - i
    ensures b <==> exists k :: i <= k < |details| && NameHit(details[k].productName, filter)
  {
    if i == |details| then false
    else if NameHit(details[i].productName, filter) then true
    else AnyDetailHit(details, filter, i + 1)
  }

  /** The deal's phase is one of the phase filters. */
  predicate PhaseListed(deal: Deal, phaseFilters: seq<string>) {
    deal.phaseName.Some? && deal.phaseName.value in phaseFilters
  }

  /** `filter_deal`: a non-empty phase list demands exact membership, whatever the product
      filter says; a non-empty product filter then demands a hit on a product name. */
  function FilterDeal(deal: Deal, productFilter: string, phaseFilters: seq<string>): (b: bool)
    ensures b <==>
      (phaseFilters == [] || PhaseListed(deal, phaseFilters)) &&
      (productFilter == "" || ProductHit(deal, productFilter))
  {
    if phaseFilters != [] && !PhaseListed(deal, phaseFilters) then
      false
    else if productFilter != "" then
      if deal.productName.Some? && NameHit(deal.productName.value, productFilter) then true
      else AnyDetailHit(deal.productDetails, productFilter, 0)
    else
      true
  }

  /** Tightening the phase list only ever excludes more deals. */
  lemma PhaseFilterMonotone(deal: Deal, productFilter: string, tight: seq<string>, loose: seq<string>)
    requires tight != []
    requires loose == [] || forall x :: x in tight ==> x in loose
    ensures FilterDeal(deal, productFilter, tight) ==> FilterDeal(deal, productFilter, loose)
  {
  }

  /** The deals that survive the filters, in fetch order. */
  function Selected(deals: seq<Deal>, productFilter: string, phaseFilters: seq<string>): (r: seq<Deal>)
    ensures forall d :: d in r <==> d in deals && FilterDeal(d, productFilter, phaseFilters)
    ensures forall d :: multiset(r)[d] == if FilterDeal(d, productFilter, phaseFilters) then multiset(deals)[d] else 0
  {
    Filter((d: Deal) => FilterDeal(d, productFilter, phaseFilters), deals)
  }

  // ---------------------------------------------------------------------------
  // Reconciliation

  /** `str(deal.id)`, the key a deal has in the sheet's id column. */
  function Key(deal: Deal): (k: string)
    ensures ParseInt(k) == Some(deal.id)
    ensures IsCanonicalInt(k)
  {
    IntToStringRoundTrip(deal.id);
    IntToStringCanonical(deal.id);
    IntToString(deal.id)
  }

  /** Two deals share a key exactly when they share an id. */
  lemma KeyIdentifiesDeal(a: Deal, b: Deal)
    ensures Key(a) == Key(b) <==> a.id == b.id
  {
    if Key(a) == Key(b) {
      assert Some(a.id) == ParseInt(Key(a)) == ParseInt(Key(b)) == Some(b.id);
    }
  }

  /** `mazrica_id_set`: the keys of the filtered deals. */
  function KeySet(deals: seq<Deal>): (ks: set<string>)
    ensures forall d :: d in deals ==> Key(d) in ks
    ensures forall k :: k in ks <==> exists d :: d in deals && Key(d) == k
  {
    set d | d in deals :: Key(d)
  }

  /** A sheet id not in the form `str()` writes ("01", "+1", "1.0", "") is the key
      of no deal, so it is always deleted, even when it parses to a deal's id. */
  lemma NonCanonicalIdDeleted(deals: seq<Deal>, existingIds: seq<string>, x: string)
    requires x in existingIds && !IsCanonicalInt(x)
    ensures x !in KeySet(deals) && x in DeleteIds(existingIds, KeySet(deals))
  {
    var r := DeleteIds(existingIds, KeySet(deals));
    assert multiset(r)[x] == multiset(existingIds)[x] > 0;
  }

  /** A sheet id "01" is deleted although deal 1 is in the source, because its key is "1". */
  lemma PaddedIdExample(d: Deal)
    requires d.id == 1
    ensures KeySet([d]) == {"1"}
    ensures DeleteIds(["01", "1"], KeySet([d])) == ["01"]
  {
    assert Key(d) == "1" by {
      CanonicalRoundTrip("1");
      assert ParseInt("1") == Some(1);
    }
    assert KeySet([d]) == {"1"};
    PaddedIdDeleted();
  }

  /** `delete_ids` for the sheet ids "01" and "1" against the key set {"1"}. */
  lemma PaddedIdDeleted()
    ensures DeleteIds(["01", "1"], {"1"}) == ["01"]
  {
    var r := DeleteIds(["01", "1"], {"1"});
    assert multiset(r)["1"] == 0 && multiset(r)["01"] == 1;
    assert multiset(r) == multiset{"01"} by {
      forall x ensures multiset(r)[x] == multiset{"01"}[x] {
        if x != "1" && x != "01" { assert x !in ["01", "1"]; }
      }
    }
    assert |r| == 1;
  }

  /** `new_deals`: the deals whose key is not yet in the sheet, in source order. */
  function NewDeals(deals: seq<Deal>, existing: set<string>): (r: seq<Deal>)
    ensures forall d :: multiset(r)[d] == if Key(d) in existing then 0 else multiset(deals)[d]
  {
    Filter((d: Deal) => Key(d) !in existing, deals)
  }

  /** `delete_ids`: the sheet's ids, in sheet order and with repeats, that no filtered deal has. */
  function DeleteIds(existingIds: seq<string>, keys: set<string>): (r: seq<string>)
    ensures forall x :: multiset(r)[x] == if x in keys then 0 else multiset(existingIds)[x]
  {
    Filter((x: string) => x !in keys, existingIds)
  }

  /** The deleted ids keep sheet order: they distribute over concatenation of the sheet's ids. */
  lemma DeleteIdsKeepOrder(a: seq<string>, b: seq<string>, keys: set<string>)
    ensures DeleteIds(a + b, keys) == DeleteIds(a, keys) + DeleteIds(b, keys)
  {
    FilterAppend((x: string) => x !in keys, a, b);
  }

  /** A deal is new exactly when it is a filtered deal whose key is absent from the sheet,
      and an id is deleted exactly when it is in the sheet and no filtered deal has it. */
  lemma ReconcileExact(deals: seq<Deal>, existingIds: seq<string>)
    ensures forall d :: d in NewDeals(deals, Elems(existingIds)) <==> d in deals && Key(d) !in existingIds
    ensures forall x :: x in DeleteIds(existingIds, KeySet(deals)) <==> x in existingIds && x !in KeySet(deals)
  {
    NewDealsExact(deals, existingIds);
    DeleteIdsExact(deals, existingIds);
  }

  /** The new deals are the filtered deals whose key is absent from the sheet. */
  lemma NewDealsExact(deals: seq<Deal>, existingIds: seq<string>)
    ensures forall d :: d in NewDeals(deals, Elems(existingIds)) <==> d in deals && Key(d) !in existingIds
  {
    var newDeals := NewDeals(deals, Elems(existingIds));
    forall d | d in deals && Key(d) !in existingIds ensures d in newDeals {
      var k :| 0 <= k < |deals| && deals[k] == d;
    }
    forall d | d in newDeals ensures d in deals && Key(d) !in existingIds {
      var k :| 0 <= k < |newDeals| && newDeals[k] == d;
    }
  }

  /** The deleted ids are the sheet's ids that no filtered deal has. */
  lemma DeleteIdsExact(deals: seq<Deal>, existingIds: seq<string>)
    ensures forall x :: x in DeleteIds(existingIds, KeySet(deals)) <==> x in existingIds && x !in KeySet(deals)
  {
    var deleteIds := DeleteIds(existingIds, KeySet(deals));
    forall x | x in existingIds && x !in KeySet(deals) ensures x in deleteIds {
      var k :| 0 <= k < |existingIds| && existingIds[k] == x;
    }
    forall x | x in deleteIds ensures x in existingIds && x !in KeySet(deals) {
      var k :| 0 <= k < |deleteIds| && deleteIds[k] == x;
    }
  }

  /** The deleted ids are the sheet's ids minus the filtered keys; what is neither new nor
      deleted is the intersection, and together they make up the sheet's id set. */
  lemma DeletePartition(deals: seq<Deal>, existingIds: seq<string>)
    ensures Elems(DeleteIds(existingIds, KeySet(deals))) == Elems(existingIds) - KeySet(deals)
    ensures Elems(DeleteIds(existingIds, KeySet(deals))) !! (Elems(existingIds) * KeySet(deals))
    ensures Elems(DeleteIds(existingIds, KeySet(deals))) + (Elems(existingIds) * KeySet(deals)) == Elems(existingIds)
  {
    ReconcileExact(deals, existingIds);
  }

  /** Running the reconciliation against a sheet that already holds exactly the filtered
      keys adds nothing and deletes nothing. */
  lemma ReconcileIdempotent(deals: seq<Deal>, existingIds: seq<string>)
    requires Elems(existingIds) == KeySet(deals)
    ensures NewDeals(deals, Elems(existingIds)) == []
    ensures DeleteIds(existingIds, KeySet(deals)) == []
  {
    var p := (d: Deal) => Key(d) !in Elems(existingIds);
    forall i | 0 <= i < |deals| ensures !p(deals[i]) {
      assert deals[i] in deals;
    }
    FilterNone(p, deals);
    var q := (x: string) => x !in KeySet(deals);
    forall i | 0 <= i < |existingIds| ensures !q(existingIds[i]) {
      assert existingIds[i] in existingIds;
    }
    FilterNone(q, existingIds);
  }

  /** After the deletions and the additions the sheet holds exactly the filtered keys, so a
      second run with an unchanged source is a no-op. */
  lemma ReconcileConverges(deals: seq<Deal>, existingIds: seq<string>)
    ensures (Elems(existingIds) - Elems(DeleteIds(existingIds, KeySet(deals))))
            + KeySet(NewDeals(deals, Elems(existingIds))) == KeySet(deals)
  {
    ReconcileExact(deals, existingIds);
    DeletePartition(deals, existingIds);
    var newDeals := NewDeals(deals, Elems(existingIds));
    var after := (Elems(existingIds) - Elems(DeleteIds(existingIds, KeySet(deals)))) + KeySet(newDeals);
    forall x | x in KeySet(deals) ensures x in after {
      var d :| d in deals && Key(d) == x;
      if x !in existingIds {
        assert d in newDeals;
      }
    }
  }

  /** Without a source deal, every id in the sheet is deleted and nothing is added. */
  lemma EmptySourceDeletesAll(existingIds: seq<string>)
    ensures NewDeals([], Elems(existingIds)) == []
    ensures DeleteIds(existingIds, KeySet([])) == existingIds
  {
    FilterAll((x: string) => x !in KeySet([]), existingIds);
  }

  /** The new deals keep source order: they distribute over concatenation of the source. */
  lemma NewDealsKeepOrder(a: seq<Deal>, b: seq<Deal>, existing: set<string>)
    ensures NewDeals(a + b, existing) == NewDeals(a, existing) + NewDeals(b, existing)
  {
    FilterAppend((d: Deal) => Key(d) !in existing, a, b);
  }

  /** The rows appended for the new deals: `deal_to_rows` of each, concatenated. */
  function AllRows(deals: seq<Deal>): (rows: seq<Row>)
    ensures forall i :: 0 <= i < |rows| ==> |rows[i]| == |Headers|
  {
    if deals == [] then []
    else AllRows(deals[..|deals| - 1]) + Rows(deals[|deals| - 1])
  }

  /** Every appended row starts with the id of one of the deals. */
  lemma {:induction false} AllRowsIds(deals: seq<Deal>)
    ensures forall r :: r in AllRows(deals) ==> |r| == |Headers| && exists d :: d in deals && r[ColId] == Int(d.id)
  {
    if deals != [] {
      var init := deals[..|deals| - 1];
      var last := deals[|deals| - 1];
      AllRowsIds(init);
      forall r | r in AllRows(deals) ensures exists d :: d in deals && r[ColId] == Int(d.id) {
        if r in AllRows(init) {
          var d :| d in init && r[ColId] == Int(d.id);
          assert d in deals;
        } else {
          assert r in Rows(last);
        }
      }
    }
  }

  /** The number of rows the deals produce: one per product detail, at least one per deal. */
  function RowCount(deals: seq<Deal>): (n: nat)
    ensures n >= |deals|
    ensures n == |deals| <==> forall i :: 0 <= i < |deals| ==> |deals[i].productDetails| <= 1
  {
    if deals == [] then 0
    else
      var last := deals[|deals| - 1];
      RowCount(deals[..|deals| - 1]) + (if last.productDetails == [] then 1 else |last.productDetails|)
  }

  lemma {:induction false} AllRowsCount(deals: seq<Deal>)
    ensures |AllRows(deals)| == RowCount(deals)
  {
    if deals != [] {
      AllRowsCount(deals[..|deals| - 1]);
    }
  }

  /** No row appended carries the id of a row already in the sheet. */
  lemma NewRowsAreNew(deals: seq<Deal>, existingIds: seq<string>)
    ensures forall r :: r in AllRows(NewDeals(deals, Elems(existingIds))) ==>
      |r| == |Headers| && exists d :: d in deals && r[ColId] == Int(d.id) && Key(d) !in existingIds
  {
    var newDeals := NewDeals(deals, Elems(existingIds));
    ReconcileExact(deals, existingIds);
    AllRowsIds(newDeals);
    forall r | r in AllRows(newDeals)
      ensures |r| == |Headers| && exists d :: d in deals && r[ColId] == Int(d.id) && Key(d) !in existingIds
    {
      var d :| d in newDeals && r[ColId] == Int(d.id);
      assert d in deals && Key(d) !in existingIds;
    }
  }

  /** `new_rows`: `deal_to_rows` of each new deal, appended in order. */
  method BuildNewRows(newDeals: seq<Deal>) returns (newRows: seq<Row>)
    ensures newRows == AllRows(newDeals)
    ensures |newRows| == RowCount(newDeals)
  {
    newRows := [];
    var i := 0;
    while i < |newDeals|
      invariant 0 <= i <= |newDeals|
      invariant newRows == AllRows(newDeals[..i])
    {
      var rows := DealToRows(newDeals[i]);
      assert newRows + rows == AllRows(newDeals[..i + 1]) by {
        assert newDeals[..i + 1][..i] == newDeals[..i];
      }
      newRows := newRows + rows;
      i := i + 1;
    }
    assert newRows == AllRows(newDeals) by {
      assert newDeals[..i] == newDeals;
    }
    AllRowsCount(newDeals);
  }

  // ---------------------------------------------------------------------------
  // The skipped-row statistic

  /** `len(existing_id_set) - len(delete_ids)` as written: the deleted ids are counted with
      their repeats, while the sheet's ids are counted once each. */
  function SkippedAsWritten(existingIds: seq<string>, deleteIds: seq<string>): int {
    |Elems(existingIds)| - |deleteIds|
  }

  /** A deal with two rows that is gone from the source makes the statistic negative. */
  lemma SkippedAsWrittenCanBeNegative()
    ensures SkippedAsWritten(["3", "3"], DeleteIds(["3", "3"], KeySet([]))) == -1
  {
    EmptySourceDeletesAll(["3", "3"]);
    assert Elems(["3", "3"]) == {"3"};
  }

  /** When the sheet's id column has no repeats the statistic as written is right. */
  lemma SkippedAsWrittenWithoutRepeats(deals: seq<Deal>, existingIds: seq<string>)
    requires Distinct(existingIds)
    ensures SkippedAsWritten(existingIds, DeleteIds(existingIds, KeySet(deals)))
            == |Elems(existingIds) * KeySet(deals)|
  {
    var deleteIds := DeleteIds(existingIds, KeySet(deals));
    FilterDistinct((x: string) => x !in KeySet(deals), existingIds);
    DistinctCard(deleteIds);
    DeletePartition(deals, existingIds);
  }

  /** The number of sheet rows that are neither deleted nor added: the rows whose id
      some filtered deal has. */
  function SkippedRows(existingIds: seq<string>, deleteIds: seq<string>): int {
    |existingIds| - |deleteIds|
  }

  /** The sheet's ids, in sheet order and with repeats, that some filtered deal has. */
  function KeptIds(existingIds: seq<string>, keys: set<string>): (r: seq<string>)
    ensures forall x :: multiset(r)[x] == if x in keys then multiset(existingIds)[x] else 0
  {
    Filter((x: string) => x in keys, existingIds)
  }

  /** The statistic counts the sheet's rows whose id is a filtered deal's key, so it is
      never negative. */
  lemma SkippedRowsCountsKeptRows(existingIds: seq<string>, keys: set<string>)
    ensures SkippedRows(existingIds, DeleteIds(existingIds, keys)) == |KeptIds(existingIds, keys)| >= 0
  {
    FilterSplit((x: string) => x in keys, (x: string) => x !in keys, existingIds);
  }

  // ---------------------------------------------------------------------------
  // One sync run

  /** The `stats` dictionary, without the timestamp and the error fields. */
  datatype SyncStats = SyncStats(
    totalDeals: nat,
    filteredDeals: nat,
    existingIds: nat,
    newRows: nat,
    deletedRows: nat,
    skippedRows: int)

  /** The reconciliation part of `sync_deals_to_sheets`, given the fetched deals and the
      ids read from the sheet's first column; returns the rows to append and the ids to
      delete that go to the sheet, and the statistics. */
  method SyncDealsToSheets(allDeals: seq<Deal>, productFilter: string, phaseFilters: seq<string>, existingIds: seq<string>)
    returns (newRows: seq<Row>, deleteIds: seq<string>, stats: SyncStats)
    ensures var deals := Selected(allDeals, productFilter, phaseFilters);
      newRows == AllRows(NewDeals(deals, Elems(existingIds))) &&
      deleteIds == DeleteIds(existingIds, KeySet(deals)) &&
      stats == SyncStats(|allDeals|, |deals|, |existingIds|, RowCount(NewDeals(deals, Elems(existingIds))),
                         |deleteIds|, |KeptIds(existingIds, KeySet(deals))|)
  {
    stats := SyncStats(0, 0, 0, 0, 0, 0);
    stats := stats.(totalDeals := |allDeals|);

    var deals: seq<Deal>;
    if productFilter != "" || phaseFilters != [] {
      deals := Filter((d: Deal) => FilterDeal(d, productFilter, phaseFilters), allDeals);
      stats := stats.(filteredDeals := |deals|);
    } else {
      deals := allDeals;
      FilterAll((d: Deal) => FilterDeal(d, productFilter, phaseFilters), allDeals);
      stats := stats.(filteredDeals := |deals|);
    }

    var existingIdSet := Elems(existingIds);
    stats := stats.(existingIds := |existingIds|);

    var keys := KeySet(deals);
    var newDeals := Filter((d: Deal) => Key(d) !in existingIdSet, deals);
    deleteIds := Filter((x: string) => x !in keys, existingIds);

    SkippedRowsCountsKeptRows(existingIds, keys);
    stats := stats.(skippedRows := SkippedRows(existingIds, deleteIds));

    newRows := BuildNewRows(newDeals);
    stats := stats.(newRows := |newRows|, deletedRows := |deleteIds|);
  }

  /** A deal record with only an id and a phase set. */
  function SampleDeal(id: int, phase: string): Deal {
    Deal(id, "", None, None, None, None, Some(phase), None, None, "", "", None, [], None)
  }

  /** Deals 1 (won) and 2 (lost), only won deals wanted, ids "1" and "3" in the sheet:
      id "3" is deleted, nothing is added, and one id is kept. */
  lemma WonLostScenario()
    ensures var deals := Selected([SampleDeal(1, "Won"), SampleDeal(2, "Lost")], "", ["Won"]);
      NewDeals(deals, Elems(["1", "3"])) == [] &&
      DeleteIds(["1", "3"], KeySet(deals)) == ["3"] &&
      |Elems(["1", "3"]) * KeySet(deals)| == 1
  {
    WonSelected();
    NothingNew();
    WonKeys();
  }

  /** The won deal's key set, the ids it deletes and the ids it keeps. */
  lemma WonKeys()
    ensures KeySet([SampleDeal(1, "Won")]) == {"1"}
    ensures DeleteIds(["1", "3"], KeySet([SampleDeal(1, "Won")])) == ["3"]
    ensures |Elems(["1", "3"]) * KeySet([SampleDeal(1, "Won")])| == 1
  {
    assert Key(SampleDeal(1, "Won")) == "1";
    OnlyThreeDeleted();
    assert Elems(["1", "3"]) * {"1"} == {"1"};
  }

  lemma NothingNew()
    ensures NewDeals([SampleDeal(1, "Won")], Elems(["1", "3"])) == []
  {
    var won := SampleDeal(1, "Won");
    assert Key(won) == "1";
    assert Elems(["1", "3"]) == {"1", "3"};
    assert [won][1..] == [];
  }

  lemma WonSelected()
    ensures Selected([SampleDeal(1, "Won"), SampleDeal(2, "Lost")], "", ["Won"]) == [SampleDeal(1, "Won")]
  {
    var won := SampleDeal(1, "Won");
    var lost := SampleDeal(2, "Lost");
    var p := (d: Deal) => FilterDeal(d, "", ["Won"]);
    assert p(won) && !p(lost);
    assert [won, lost][1..] == [lost];
    assert [lost][1..] == [];
  }

  lemma OnlyThreeDeleted()
    ensures DeleteIds(["1", "3"], {"1"}) == ["3"]
  {
    assert ["1", "3"][1..] == ["3"];
    assert ["3"][1..] == [];
  }
}
