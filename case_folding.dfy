/** The two lower-casings that meet in the duplicate test of a create.
    A query's `column.ToLower()` is translated to SQLite's `lower()`, which
    folds only `A`..`Z`. A `value.ToLower()` that reads no column is
    evaluated by .NET before the query runs and is sent as a parameter; it
    folds letters of other scripts too. */
module CaseFolding {

  predicate IsAsciiUpper(ch: char) {
    'A' <= ch <= 'Z'
  }

  /** The capitals the .NET-side fold lowers: ASCII, Latin-1 (without the
      multiplication sign) and Cyrillic. */
  predicate IsNetUpper(ch: char) {
    || IsAsciiUpper(ch)
    || ('À' <= ch <= 'Þ' && ch != '×')
    || 'Ѐ' <= ch <= 'Я'
  }

  /** A capital that only the .NET-side fold lowers. */
  predicate IsForeignCapital(ch: char) {
    IsNetUpper(ch) && !IsAsciiUpper(ch)
  }

  predicate HasNoForeignCapital(s: string) {
    forall i :: 0 <= i < |s| ==> !IsForeignCapital(s[i])
  }

  function SqlLowerChar(ch: char): (r: char)
    ensures !IsAsciiUpper(r)
    ensures IsAsciiUpper(ch) ==> r as int == ch as int + 32
    ensures !IsAsciiUpper(ch) ==> r == ch
  {
    if IsAsciiUpper(ch) then (ch as int + 32) as char else ch
  }

  function NetLowerChar(ch: char): (r: char)
    ensures !IsNetUpper(r)
    ensures IsNetUpper(ch) <==> r != ch
    ensures !IsForeignCapital(ch) ==> r == SqlLowerChar(ch)
  {
    if IsAsciiUpper(ch) || ('À' <= ch <= 'Þ' && ch != '×') || 'А' <= ch <= 'Я' then
      (ch as int + 32) as char
    else if 'Ѐ' <= ch <= 'Џ' then
      (ch as int + 80) as char
    else
      ch
  }

  /** `LOWER(column)`: the column side of a translated query. */
  function SqlLower(s: string): (r: string)
    ensures |r| == |s|
  {
    if s == [] then [] else [SqlLowerChar(s[0])] + SqlLower(s[1..])
  }

  /** `value.ToLower()` run by .NET: the parameter side of a query. */
  function NetLower(s: string): (r: string)
    ensures |r| == |s|
  {
    if s == [] then [] else [NetLowerChar(s[0])] + NetLower(s[1..])
  }

  lemma {:induction false} SqlLowerAt(s: string, i: nat)
    requires i < |s|
    ensures SqlLower(s)[i] == SqlLowerChar(s[i])
  {
    if i > 0 {
      SqlLowerAt(s[1..], i - 1);
    }
  }

  lemma {:induction false} NetLowerAt(s: string, i: nat)
    requires i < |s|
    ensures NetLower(s)[i] == NetLowerChar(s[i])
  {
    if i > 0 {
      NetLowerAt(s[1..], i - 1);
    }
  }

  /** `LOWER` leaves no ASCII capital behind. */
  lemma SqlLowerHasNoUpper(s: string)
    ensures forall i :: 0 <= i < |s| ==> !IsAsciiUpper(SqlLower(s)[i])
  {
    forall i | 0 <= i < |s| ensures !IsAsciiUpper(SqlLower(s)[i]) {
      SqlLowerAt(s, i);
    }
  }

  /** Lower-casing twice is lower-casing once, on either side. */
  lemma {:induction false} SqlLowerIdempotent(s: string)
    ensures SqlLower(SqlLower(s)) == SqlLower(s)
  {
    if s != [] {
      SqlLowerIdempotent(s[1..]);
      assert SqlLower(s)[1..] == SqlLower(s[1..]);
    }
  }

  lemma {:induction false} NetLowerIdempotent(s: string)
    ensures NetLower(NetLower(s)) == NetLower(s)
  {
    if s != [] {
      NetLowerIdempotent(s[1..]);
      assert NetLower(s)[1..] == NetLower(s[1..]);
    }
  }

  /** The two sides agree on a string exactly when it holds no capital that
      only .NET lowers; so a value matches itself exactly then. */
  lemma FoldsAgreeIff(s: string)
    ensures SqlLower(s) == NetLower(s) <==> HasNoForeignCapital(s)
  {
    if SqlLower(s) == NetLower(s) {
      forall i | 0 <= i < |s| ensures !IsForeignCapital(s[i]) {
        SqlLowerAt(s, i);
        NetLowerAt(s, i);
      }
    }
    if HasNoForeignCapital(s) {
      forall i | 0 <= i < |s| ensures SqlLower(s)[i] == NetLower(s)[i] {
        SqlLowerAt(s, i);
        NetLowerAt(s, i);
      }
    }
  }

  /** A string without ASCII capitals is its own `LOWER`. */
  lemma {:induction false} SqlLowerKeeps(s: string)
    requires forall i :: 0 <= i < |s| ==> !IsAsciiUpper(s[i])
    ensures SqlLower(s) == s
  {
    if s != [] {
      SqlLowerKeeps(s[1..]);
    }
  }

  /** A string without capitals .NET knows is its own `ToLower()`. */
  lemma {:induction false} NetLowerKeeps(s: string)
    requires forall i :: 0 <= i < |s| ==> !IsNetUpper(s[i])
    ensures NetLower(s) == s
  {
    if s != [] {
      NetLowerKeeps(s[1..]);
    }
  }

  /** A stored value with a Cyrillic capital does not match itself. */
  lemma CapitalResubmissionMisses()
    ensures SqlLower("Алишер") != NetLower("Алишер")
  {
    FoldsAgreeIff("Алишер");
    assert IsForeignCapital("Алишер"[0]);
  }

  /** A stored lower-case value matches a capitalised input, but not the
      other way round. */
  lemma CapitalInputMatchesLowerStored()
    ensures SqlLower("алишер") == NetLower("Алишер")
    ensures SqlLower("Алишер") != NetLower("алишер")
  {
    SqlLowerKeeps("алишер");
    SqlLowerKeeps("Алишер");
    NetLowerKeeps("алишер");
    NetLowerKeeps("лишер");
    assert "Алишер" == ['А'] + "лишер";
    assert NetLower("Алишер") == [NetLowerChar('А')] + NetLower("лишер");
  }
}
