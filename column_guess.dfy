/** Which columns of an uploaded recipient table hold the ID, the nickname and the hearts,
    guessed from the column names (`guess_columns`). */
module ColumnGuess {
  import opened Optional
  import opened PyText

  const IdCandidates: seq<string> :=
    ["후원아이디", "아이디", "ID", "id", "userId", "후원 아이디", "후원 아이디(닉네임)"]
  const NickCandidates: seq<string> := ["닉네임", "후원닉네임", "닉", "별명", "name", "nick"]
  const HeartCandidates: seq<string> := ["후원하트", "하트", "hearts", "heart", "총하트", "하트수"]

  /** The one character `replace(" ", "")` removes: U+0020, not tabs or other whitespace. */
  predicate IsPlainSpace(c: char)
  {
    c == ' '
  }

  /** `s.replace(" ", "")`: every U+0020 removed, other whitespace kept. */
  function NoSpaces(s: string): (r: string)
    ensures |r| <= |s| && ' ' !in r
  {
    Keep(s, IsPlainSpace)
  }

  /** Removing spaces works character by character: a space goes, any other character
      stays, and the pieces of a text are kept in order. */
  lemma NoSpacesMeaning(a: string, b: string, c: char)
    ensures NoSpaces(a + b) == NoSpaces(a) + NoSpaces(b)
    ensures NoSpaces([c]) == if c == ' ' then [] else [c]
    ensures ' ' !in a ==> NoSpaces(a) == a
  {
    KeepAppend(a, b, IsPlainSpace);
    assert [c][1..] == [];
    if ' ' !in a {
      assert SepFree(a, IsPlainSpace);
      KeepSepFree(a, IsPlainSpace);
    }
  }

  /** The candidate names with their spaces removed, in order. */
  function Spaceless(cands: seq<string>): seq<string>
  {
    seq(|cands|, i requires 0 <= i < |cands| => NoSpaces(cands[i]))
  }

  /** A column name matches when, spaces removed, it equals a candidate with spaces removed. */
  predicate NameMatches(name: string, cands: seq<string>)
  {
    NoSpaces(name) in Spaceless(cands)
  }

  /** `pick(cands)`: the first column, in frame order, whose name matches; "" if none does. */
  function Pick(cols: seq<string>, cands: seq<string>): string
  {
    if cols == [] then ""
    else if NameMatches(cols[0], cands) then cols[0]
    else Pick(cols[1..], cands)
  }

  /** Column `i` is the first, in frame order, whose name matches. */
  predicate FirstMatchAt(cols: seq<string>, cands: seq<string>, i: int)
  {
    0 <= i < |cols| && NameMatches(cols[i], cands) &&
    forall j :: 0 <= j < i ==> !NameMatches(cols[j], cands)
  }

  /** `pick` returns the first matching column, and "" exactly when no column matches
      (or when the first match is itself named ""). */
  lemma {:induction false} PickFirstMatch(cols: seq<string>, cands: seq<string>)
    ensures forall i :: FirstMatchAt(cols, cands, i) ==> Pick(cols, cands) == cols[i]
    ensures (forall i :: 0 <= i < |cols| ==> !NameMatches(cols[i], cands)) ==>
              Pick(cols, cands) == ""
    ensures Pick(cols, cands) == "" || Pick(cols, cands) in cols
  {
    if cols != [] {
      PickFirstMatch(cols[1..], cands);
      forall i | FirstMatchAt(cols, cands, i)
        ensures Pick(cols, cands) == cols[i]
      {
        if i > 0 {
          assert !NameMatches(cols[0], cands);
          assert cols[i] == cols[1..][i - 1];
          assert FirstMatchAt(cols[1..], cands, i - 1);
          forall j | 0 <= j < i - 1
            ensures !NameMatches(cols[1..][j], cands)
          {
            assert cols[1..][j] == cols[j + 1];
          }
        }
      }
      if forall i :: 0 <= i < |cols| ==> !NameMatches(cols[i], cands) {
        assert !NameMatches(cols[0], cands);
        forall i | 0 <= i < |cols| - 1
          ensures !NameMatches(cols[1..][i], cands)
        {
          assert cols[1..][i] == cols[i + 1];
        }
      }
    }
  }

  /** The three guessed column names. */
  datatype Columns = Columns(id: string, nick: string, hearts: string)

  /** The column names as the frame reports them, each stripped: `str(c).strip()`. */
  function StrippedNames(names: seq<string>): seq<string>
  {
    seq(|names|, i requires 0 <= i < |names| => Strip(names[i]))
  }

  /** `guess_columns`: the ID column defaults to the first column and the hearts column to the
      last; the nickname column may stay "". A frame without columns has no first column,
      so the guess fails (`None`). */
  function GuessColumns(names: seq<string>): Option<Columns>
  {
    var cols := StrippedNames(names);
    if cols == [] then None
    else
      var id := Pick(cols, IdCandidates);
      var hearts := Pick(cols, HeartCandidates);
      Some(Columns(if id != "" then id else cols[0],
                   Pick(cols, NickCandidates),
                   if hearts != "" then hearts else cols[|cols| - 1]))
  }

  /** The guess fails only on a frame without columns. The ID and hearts columns always name
      a column of the frame, and so does the nickname column unless it is "". Each is the
      first column whose name matches; without any matching name the ID column is the first
      one and the hearts column the last. */
  lemma GuessColumnsMeaning(names: seq<string>)
    ensures GuessColumns(names).None? <==> names == []
    ensures var cols := StrippedNames(names);
            GuessColumns(names).Some? ==>
              var c := GuessColumns(names).value;
              c.id in cols && c.hearts in cols && (c.nick == "" || c.nick in cols) &&
              (forall i :: FirstMatchAt(cols, IdCandidates, i) && cols[i] != "" ==>
                 c.id == cols[i]) &&
              (forall i :: FirstMatchAt(cols, NickCandidates, i) ==> c.nick == cols[i]) &&
              (forall i :: FirstMatchAt(cols, HeartCandidates, i) && cols[i] != "" ==>
                 c.hearts == cols[i]) &&
              ((forall i :: 0 <= i < |cols| ==> !NameMatches(cols[i], IdCandidates)) ==>
                 c.id == cols[0]) &&
              ((forall i :: 0 <= i < |cols| ==> !NameMatches(cols[i], HeartCandidates)) ==>
                 c.hearts == cols[|cols| - 1]) &&
              ((forall i :: 0 <= i < |cols| ==> !NameMatches(cols[i], NickCandidates)) ==>
                 c.nick == "")
  {
    var cols := StrippedNames(names);
    PickFirstMatch(cols, IdCandidates);
    PickFirstMatch(cols, NickCandidates);
    PickFirstMatch(cols, HeartCandidates);
  }
}
