/** Turning an uploaded donation table into the two recipient lists (`prepare_from_csv`):
    IDs normalised, one entry per ID with its hearts summed, the entries with 1000 to 9999
    hearts for automatic sending and those with 10000 or more kept apart as VIPs, both
    ordered by hearts (most first) and then by ID. Also the recipient list typed in by hand. */
module RecipientPrep {
  import opened PyText
  import opened MixedIds

  /** One row of the upload, reduced to what preparation reads: the cell of the ID column,
      the cell of the nickname column (read only when there is one) and the hearts, already
      parsed to an integer. */
  datatype Upload = Upload(id: Cell, nick: Cell, hearts: int)

  /** A recipient: an ID, a nickname and a heart count. */
  datatype Recipient = Recipient(id: string, nick: string, hearts: int)

  // ---------------------------------------------------------------- one row

  /** The nickname found inside the ID cell; "" when the column is not mixed. */
  function MixNick(r: Upload, mixed: bool): string
  {
    if mixed then NormalizeNickFromMix(r.id) else ""
  }

  /** The nickname column's text, stripped (a missing cell reads "nan"); "" without one. */
  function ColumnNick(r: Upload, hasNickCol: bool): string
  {
    if hasNickCol then Strip(AsText(r.nick)) else ""
  }

  /** A row after normalisation: in a mixed column the ID is the part before the
      parentheses, otherwise the stripped cell text; the nickname from the ID cell wins
      when it is not empty, else the nickname column's. */
  function NormalizeRow(r: Upload, mixed: bool, hasNickCol: bool): Recipient
  {
    var nick := MixNick(r, mixed);
    Recipient(if mixed then NormalizeIdFromMix(r.id) else Strip(AsText(r.id)),
              if nick != "" then nick else ColumnNick(r, hasNickCol),
              r.hearts)
  }

  /** IDs and nicknames come out stripped. The nickname is the one inside the ID cell if that
      is not empty and otherwise the nickname column's, so a nickname column is consulted
      only for rows whose ID cell names no nickname. */
  lemma NormalizeRowMeaning(r: Upload, mixed: bool, hasNickCol: bool)
    ensures var n := NormalizeRow(r, mixed, hasNickCol);
            IsStripped(n.id) && IsStripped(n.nick) && n.hearts == r.hearts &&
            (mixed && NormalizeNickFromMix(r.id) != "" ==> n.nick == NormalizeNickFromMix(r.id)) &&
            (!mixed || NormalizeNickFromMix(r.id) == "" ==> n.nick == ColumnNick(r, hasNickCol)) &&
            (!mixed ==> n.id == Strip(AsText(r.id)))
  {
    NormalizeIdMeaning(r.id);
    NormalizeNickMeaning(r.id);
  }

  /** In a mixed column, a cell "ID(nickname)" gives the ID before the parentheses and the
      nickname inside them, whatever the nickname column says; with an empty nickname inside
      the parentheses the nickname column is used. */
  lemma MixedRowSplit(id: string, nick: string, other: Cell, hasNickCol: bool, hearts: int)
    requires id != [] && !IsSpace(id[0]) && '(' !in id && ')' !in id
    requires ')' !in nick && '\n' !in nick
    ensures var n := NormalizeRow(Upload(Text(id + "(" + nick + ")"), other, hearts), true, hasNickCol);
            n.id == Strip(id) &&
            n.nick == (if Strip(nick) != "" then Strip(nick)
                       else if hasNickCol then Strip(AsText(other)) else "")
  {
    SplitMixedCell(id, nick);
  }

  /** All rows normalised, in order. */
  function NormalizeRows(rows: seq<Upload>, mixed: bool, hasNickCol: bool): (recs: seq<Recipient>)
    ensures |recs| == |rows|
  {
    seq(|rows|, i requires 0 <= i < |rows| => NormalizeRow(rows[i], mixed, hasNickCol))
  }

  /** The ID column's cells. */
  function IdCells(rows: seq<Upload>): seq<Cell>
  {
    seq(|rows|, i requires 0 <= i < |rows| => rows[i].id)
  }

  /** Whether the ID column is split as "ID(nickname)": forced, or detected from its values. */
  predicate IsMixed(rows: seq<Upload>, forceMixed: bool)
  {
    forceMixed || DetectMixedId(IdCells(rows))
  }

  // ---------------------------------------------------------------- per-ID totals

  function Ids(recs: seq<Recipient>): seq<string>
  {
    seq(|recs|, i requires 0 <= i < |recs| => recs[i].id)
  }

  /** `sum` of the hearts of the rows with this ID. */
  function TotalHearts(recs: seq<Recipient>, id: string): int
  {
    if recs == [] then 0
    else (if recs[0].id == id then recs[0].hearts else 0) + TotalHearts(recs[1..], id)
  }

  /** `first` nickname of the rows with this ID ("" when there is none). */
  function FirstNick(recs: seq<Recipient>, id: string): string
  {
    if recs == [] then ""
    else if recs[0].id == id then recs[0].nick
    else FirstNick(recs[1..], id)
  }

  /** The totals add up over consecutive stretches of rows. */
  lemma {:induction false} TotalHeartsAppend(a: seq<Recipient>, b: seq<Recipient>, id: string)
    ensures TotalHearts(a + b, id) == TotalHearts(a, id) + TotalHearts(b, id)
  {
    if a != [] {
      assert (a + b)[0] == a[0];
      assert (a + b)[1..] == a[1..] + b;
      TotalHeartsAppend(a[1..], b, id);
    } else {
      assert a + b == b;
    }
  }

  /** The nickname kept for an ID is that of its first row. */
  lemma {:induction false} FirstNickIsFirstRow(recs: seq<Recipient>, id: string)
    requires id in Ids(recs)
    ensures FirstNick(recs, id) == recs[FirstIndex(Ids(recs), id)].nick
  {
    if recs[0].id != id {
      assert Ids(recs)[1..] == Ids(recs[1..]);
      FirstNickIsFirstRow(recs[1..], id);
    }
  }

  /** `groupby(ID).agg(first nickname, sum of hearts)`: one entry per distinct ID, in the
      order the IDs first occur (the order is irrelevant once the lists are sorted). */
  function Aggregate(recs: seq<Recipient>): (agg: seq<Recipient>)
  {
    var ids := Dedup(Ids(recs));
    seq(|ids|, q requires 0 <= q < |ids| =>
      Recipient(ids[q], FirstNick(recs, ids[q]), TotalHearts(recs, ids[q])))
  }

  /** No two entries share an ID. */
  predicate UniqueIds(recs: seq<Recipient>)
  {
    forall i, j :: 0 <= i < j < |recs| ==> recs[i].id != recs[j].id
  }

  /** Every ID of the rows has exactly one entry; an entry carries the summed hearts and the
      first nickname of its ID, and no entry has an ID that no row has. */
  lemma AggregateMeaning(recs: seq<Recipient>)
    ensures UniqueIds(Aggregate(recs))
    ensures forall x :: x in Aggregate(recs) ==>
              x.id in Ids(recs) && x.hearts == TotalHearts(recs, x.id) &&
              x.nick == FirstNick(recs, x.id)
    ensures forall id :: id in Ids(recs) ==>
              Recipient(id, FirstNick(recs, id), TotalHearts(recs, id)) in Aggregate(recs)
  {
    var ids := Dedup(Ids(recs));
    var agg := Aggregate(recs);
    forall id | id in Ids(recs)
      ensures Recipient(id, FirstNick(recs, id), TotalHearts(recs, id)) in agg
    {
      var i :| 0 <= i < |Ids(recs)| && Ids(recs)[i] == id;
      assert id in ids;
      var q :| 0 <= q < |ids| && ids[q] == id;
      assert agg[q] == Recipient(id, FirstNick(recs, id), TotalHearts(recs, id));
    }
  }

  // ---------------------------------------------------------------- bands

  /** Sent automatically: at least 1000 and below 10000 hearts. */
  predicate InAutoBand(hearts: int)
  {
    1000 <= hearts < 10000
  }

  /** Kept apart as a VIP: 10000 hearts or more. */
  predicate InVipBand(hearts: int)
  {
    hearts >= 10000
  }

  predicate InBand(hearts: int, vip: bool)
  {
    if vip then InVipBand(hearts) else InAutoBand(hearts)
  }

  /** The entries of one band, in order: `agg[band condition]`. */
  function Band(recs: seq<Recipient>, vip: bool): (r: seq<Recipient>)
  {
    if recs == [] then []
    else (if InBand(recs[0].hearts, vip) then [recs[0]] else []) + Band(recs[1..], vip)
  }

  /** The band keeps exactly the entries in its range, each at most as often as before. */
  lemma {:induction false} BandMeaning(recs: seq<Recipient>, vip: bool)
    ensures forall x :: x in Band(recs, vip) <==> x in recs && InBand(x.hearts, vip)
    ensures forall x :: multiset(Band(recs, vip))[x] <= multiset(recs)[x]
  {
    if recs != [] {
      BandMeaning(recs[1..], vip);
      assert recs == [recs[0]] + recs[1..];
    }
  }

  /** A band of entries with distinct IDs has distinct IDs. */
  lemma {:induction false} BandUnique(recs: seq<Recipient>, vip: bool)
    requires UniqueIds(recs)
    ensures UniqueIds(Band(recs, vip))
  {
    if recs != [] {
      BandUnique(recs[1..], vip);
      BandMeaning(recs[1..], vip);
      var rest := Band(recs[1..], vip);
      forall y | y in rest
        ensures y.id != recs[0].id
      {
        var j :| 0 <= j < |recs[1..]| && recs[1..][j] == y;
        assert recs[j + 1] == y;
      }
    }
  }

  // ---------------------------------------------------------------- ordering

  /** `sort_values(["hearts", "ID"], ascending=[False, True])`: more hearts first, and for
      equal hearts the ID that compares smaller as a string. */
  predicate Before(a: Recipient, b: Recipient)
  {
    a.hearts > b.hearts || (a.hearts == b.hearts && LexLe(a.id, b.id))
  }

  predicate SortedByKey(recs: seq<Recipient>)
  {
    forall i, j :: 0 <= i < j < |recs| ==> Before(recs[i], recs[j])
  }

  lemma BeforeTotal(a: Recipient, b: Recipient)
    ensures Before(a, b) || Before(b, a)
  {
    LexLeTotal(a.id, b.id);
  }

  lemma BeforeTrans(a: Recipient, b: Recipient, c: Recipient)
    requires Before(a, b) && Before(b, c)
    ensures Before(a, c)
  {
    if a.hearts == b.hearts == c.hearts {
      LexLeTrans(a.id, b.id, c.id);
    }
  }

  /** Two entries each ordered before the other have the same key. */
  lemma BeforeAntisym(a: Recipient, b: Recipient)
    requires Before(a, b) && Before(b, a)
    ensures a.hearts == b.hearts && a.id == b.id
  {
    LexLeAntisym(a.id, b.id);
  }

  /** Where `x` goes in a sorted list: after every entry that it does not precede. */
  function InsertPos(x: Recipient, s: seq<Recipient>): (p: nat)
    ensures p <= |s|
    ensures forall i :: 0 <= i < p ==> !Before(x, s[i])
    ensures p < |s| ==> Before(x, s[p])
  {
    if s == [] || Before(x, s[0]) then 0 else 1 + InsertPos(x, s[1..])
  }

  function Insert(x: Recipient, s: seq<Recipient>): seq<Recipient>
  {
    var p := InsertPos(x, s);
    s[..p] + [x] + s[p..]
  }

  /** Insertion sort by `Before`. */
  function SortByKey(s: seq<Recipient>): seq<Recipient>
  {
    if s == [] then [] else Insert(s[0], SortByKey(s[1..]))
  }

  /** Where each entry sits after inserting `x`. */
  lemma InsertLayout(x: Recipient, s: seq<Recipient>)
    ensures var p := InsertPos(x, s);
            var t := Insert(x, s);
            |t| == |s| + 1 && t[p] == x &&
            (forall i :: 0 <= i < p ==> t[i] == s[i]) &&
            (forall i :: p < i < |t| ==> t[i] == s[i - 1])
  {
  }

  lemma InsertSorted(x: Recipient, s: seq<Recipient>)
    requires SortedByKey(s)
    ensures SortedByKey(Insert(x, s))
  {
    var p := InsertPos(x, s);
    var t := Insert(x, s);
    InsertLayout(x, s);
    forall i, j | 0 <= i < j < |t|
      ensures Before(t[i], t[j])
    {
      if j == p {
        BeforeTotal(x, s[i]);
      } else if i == p && j - 1 > p {
        BeforeTrans(x, s[p], s[j - 1]);
      }
    }
  }

  lemma InsertPermutes(x: Recipient, s: seq<Recipient>)
    ensures multiset(Insert(x, s)) == multiset(s) + multiset{x}
  {
    var p := InsertPos(x, s);
    assert s == s[..p] + s[p..];
  }

  /** The sort orders the entries by key and keeps exactly the same entries. */
  lemma {:induction false} SortByKeyMeaning(s: seq<Recipient>)
    ensures SortedByKey(SortByKey(s))
    ensures multiset(SortByKey(s)) == multiset(s)
  {
    if s != [] {
      SortByKeyMeaning(s[1..]);
      InsertSorted(s[0], SortByKey(s[1..]));
      InsertPermutes(s[0], SortByKey(s[1..]));
      assert s == [s[0]] + s[1..];
    }
  }

  /** Inserting an entry whose ID is new keeps the IDs distinct. */
  lemma InsertUnique(x: Recipient, s: seq<Recipient>)
    requires UniqueIds(s) && forall y :: y in s ==> y.id != x.id
    ensures UniqueIds(Insert(x, s))
  {
    var p := InsertPos(x, s);
    var t := Insert(x, s);
    InsertLayout(x, s);
    forall i, j | 0 <= i < j < |t|
      ensures t[i].id != t[j].id
    {
      if j == p {
        assert s[i] in s;
      } else if i == p {
        assert s[j - 1] in s;
      }
    }
  }

  /** Entries with distinct IDs stay distinct after sorting. */
  lemma {:induction false} SortByKeyUnique(s: seq<Recipient>)
    requires UniqueIds(s)
    ensures UniqueIds(SortByKey(s))
  {
    if s != [] {
      var rest := SortByKey(s[1..]);
      SortByKeyUnique(s[1..]);
      SortByKeyMeaning(s[1..]);
      forall y | y in rest
        ensures y.id != s[0].id
      {
        assert y in multiset(s[1..]);
        var j :| 0 <= j < |s[1..]| && s[1..][j] == y;
        assert s[j + 1] == y;
      }
      InsertUnique(s[0], rest);
    }
  }

  /** With distinct IDs the key order leaves no choice: any two sorted arrangements of the
      same entries are equal, so whatever algorithm sorts the frame, the lists come out as
      `SortByKey` makes them. */
  lemma {:induction false} SortedIsUnique(s: seq<Recipient>, t: seq<Recipient>)
    requires SortedByKey(s) && SortedByKey(t) && UniqueIds(s) && UniqueIds(t)
    requires multiset(s) == multiset(t)
    ensures s == t
    decreases |s|
  {
    assert |s| == |multiset(s)| == |t|;
    if s != [] {
      SortedHeadsAgree(s, t);
      SortedTail(s);
      SortedTail(t);
      SortedIsUnique(s[1..], t[1..]);
    }
  }

  /** Dropping the first entry keeps a list sorted and its IDs distinct. */
  lemma SortedTail(s: seq<Recipient>)
    requires SortedByKey(s) && UniqueIds(s) && s != []
    ensures SortedByKey(s[1..]) && UniqueIds(s[1..])
    ensures multiset(s[1..]) == multiset(s) - multiset{s[0]}
  {
    assert s == [s[0]] + s[1..];
  }

  /** Two sorted arrangements of the same entries with distinct IDs start alike. */
  lemma SortedHeadsAgree(s: seq<Recipient>, t: seq<Recipient>)
    requires SortedByKey(s) && SortedByKey(t) && UniqueIds(t)
    requires multiset(s) == multiset(t) && s != []
    ensures t != [] && s[0] == t[0]
  {
    assert s[0] in multiset(t) && t != [];
    assert t[0] in multiset(s);
    var k :| 0 <= k < |t| && t[k] == s[0];
    var m :| 0 <= m < |s| && s[m] == t[0];
    if k != 0 && m != 0 {
      assert Before(t[0], t[k]) && Before(s[0], s[m]);
      BeforeAntisym(t[0], s[0]);
    }
  }

  // ---------------------------------------------------------------- the two lists

  /** `prepare_from_csv(df, id_col, nick_col, heart_col, force_mixed)` on the rows read from
      the three columns: the automatic list and the VIP list. */
  function PrepareFromCsv(rows: seq<Upload>, hasNickCol: bool, forceMixed: bool)
    : (lists: (seq<Recipient>, seq<Recipient>))
  {
    var agg := Aggregate(NormalizeRows(rows, IsMixed(rows, forceMixed), hasNickCol));
    (SortByKey(Band(agg, false)), SortByKey(Band(agg, true)))
  }

  /** A band's list is sorted, has distinct IDs and holds exactly the entries in the band. */
  lemma BandListMeaning(agg: seq<Recipient>, vip: bool)
    requires UniqueIds(agg)
    ensures var list := SortByKey(Band(agg, vip));
            SortedByKey(list) && UniqueIds(list) &&
            forall x :: x in list <==> x in agg && InBand(x.hearts, vip)
  {
    var band := Band(agg, vip);
    BandMeaning(agg, vip);
    BandUnique(agg, vip);
    SortByKeyMeaning(band);
    SortByKeyUnique(band);
    var list := SortByKey(band);
    forall x
      ensures x in list <==> x in band
    {
      assert x in list <==> x in multiset(list);
      assert x in band <==> x in multiset(band);
    }
  }

  /** Both lists are sorted and hold each ID at most once, no ID is in both, each entry
      carries the summed hearts and first nickname of its ID, and each list holds exactly
      the IDs whose total lies in its band. */
  lemma PrepareMeaning(rows: seq<Upload>, hasNickCol: bool, forceMixed: bool)
    ensures var recs := NormalizeRows(rows, IsMixed(rows, forceMixed), hasNickCol);
            var (auto, vip) := PrepareFromCsv(rows, hasNickCol, forceMixed);
            SortedByKey(auto) && SortedByKey(vip) && UniqueIds(auto) && UniqueIds(vip) &&
            (forall x, y :: x in auto && y in vip ==> x.id != y.id) &&
            (forall x :: x in auto + vip ==>
               x.id in Ids(recs) && x.hearts == TotalHearts(recs, x.id) &&
               x.nick == FirstNick(recs, x.id)) &&
            (forall x :: x in auto ==> InAutoBand(x.hearts)) &&
            (forall x :: x in vip ==> InVipBand(x.hearts)) &&
            (forall id :: id in Ids(recs) && InAutoBand(TotalHearts(recs, id)) ==>
               Recipient(id, FirstNick(recs, id), TotalHearts(recs, id)) in auto) &&
            (forall id :: id in Ids(recs) && InVipBand(TotalHearts(recs, id)) ==>
               Recipient(id, FirstNick(recs, id), TotalHearts(recs, id)) in vip)
  {
    var recs := NormalizeRows(rows, IsMixed(rows, forceMixed), hasNickCol);
    var agg := Aggregate(recs);
    AggregateMeaning(recs);
    BandListMeaning(agg, false);
    BandListMeaning(agg, true);
  }

  // ---------------------------------------------------------------- IDs typed by hand

  /** Separators between hand-typed IDs: commas and whitespace, `[,\s]`. */
  predicate IsIdSeparator(c: char)
  {
    c == ',' || IsSpace(c)
  }

  /** `[t.strip() for t in re.split(r"[,\s]+", text) if t.strip()]`: the pieces between runs
      of separators, without the empty pieces at either end. */
  function ManualTokens(text: string): seq<string>
  {
    SplitRuns(text, IsIdSeparator)
  }

  /** `list(dict.fromkeys(tokens))` */
  function ManualIds(text: string): seq<string>
  {
    Dedup(ManualTokens(text))
  }

  /** Each typed ID becomes a recipient without nickname and with 1000 hearts. */
  function ManualRecipients(text: string): (recs: seq<Recipient>)
  {
    var ids := ManualIds(text);
    seq(|ids|, i requires 0 <= i < |ids| => Recipient(ids[i], "", 1000))
  }

  /** Stripping a token changes nothing and no token is blank, so the comprehension keeps
      every piece as it is; together the tokens hold every non-separator character of the
      text, in order. */
  lemma ManualTokensMeaning(text: string)
    ensures forall k :: 0 <= k < |ManualTokens(text)| ==>
              ManualTokens(text)[k] != [] && Strip(ManualTokens(text)[k]) == ManualTokens(text)[k]
    ensures Concat(ManualTokens(text)) == Keep(text, IsIdSeparator)
  {
    var toks := ManualTokens(text);
    forall k | 0 <= k < |toks|
      ensures toks[k] != [] && Strip(toks[k]) == toks[k]
    {
      assert SepFree(toks[k], IsIdSeparator);
      assert !IsSpace(toks[k][0]) && !IsSpace(toks[k][|toks[k]| - 1]);
      StripStripped(toks[k]);
    }
  }

  /** The typed IDs are non-empty, free of commas and whitespace and pairwise distinct; every
      token appears among them and each of them is a token, in the order of first
      occurrence. The recipients built from them all have 1000 hearts and distinct IDs. */
  lemma ManualIdsMeaning(text: string)
    ensures var ids := ManualIds(text);
            var toks := ManualTokens(text);
            Distinct(ids) &&
            (forall i :: 0 <= i < |ids| ==> ids[i] != [] && SepFree(ids[i], IsIdSeparator)) &&
            (forall i :: 0 <= i < |toks| ==> toks[i] in ids) &&
            (forall i :: 0 <= i < |ids| ==> ids[i] in toks) &&
            (forall i, j :: 0 <= i < j < |ids| ==> FirstIndex(toks, ids[i]) < FirstIndex(toks, ids[j]))
    ensures var recs := ManualRecipients(text);
            UniqueIds(recs) && forall i :: 0 <= i < |recs| ==> recs[i].hearts == 1000 && recs[i].nick == ""
  {
    var ids := ManualIds(text);
    var toks := ManualTokens(text);
    forall i | 0 <= i < |ids|
      ensures ids[i] != [] && SepFree(ids[i], IsIdSeparator)
    {
      var k :| 0 <= k < |toks| && toks[k] == ids[i];
    }
  }

  /** Commas and whitespace in front of the text add no token. */
  lemma SeparatorsSplitNothing(seps: string, rest: string)
    requires forall k :: 0 <= k < |seps| ==> IsIdSeparator(seps[k])
    ensures ManualTokens(seps + rest) == ManualTokens(rest)
  {
    SplitRunsSkip(seps, rest, IsIdSeparator);
  }

  /** A typed ID followed by any run of commas and whitespace is the first token: two IDs
      with a separator between them stay two tokens. */
  lemma TokenThenSeparators(w: string, seps: string, rest: string)
    requires w != [] && SepFree(w, IsIdSeparator)
    requires seps != [] && forall k :: 0 <= k < |seps| ==> IsIdSeparator(seps[k])
    ensures ManualTokens(w + seps + rest) == [w] + ManualTokens(rest)
  {
    SplitRunsBreak(w, seps, rest, IsIdSeparator);
  }

  /** A typed ID with no separator inside is one token: it is never split. */
  lemma LastToken(w: string)
    requires w != [] && SepFree(w, IsIdSeparator)
    ensures ManualTokens(w) == [w]
  {
    SplitRunsWhole(w, IsIdSeparator);
  }

  /** An ID typed again later is kept once, at its first place: "a, b a" names `a` and
      then `b`. */
  lemma RepeatedIdKeptOnce(a: string, b: string)
    requires a != [] && SepFree(a, IsIdSeparator) && b != [] && SepFree(b, IsIdSeparator)
    requires a != b
    ensures ManualIds(a + ", " + b + " " + a) == [a, b]
  {
    RepeatTokens(a, b);
    DedupRepeat(a, b);
    assert [a] + [b] == [a, b];
  }

  lemma RepeatTokens(a: string, b: string)
    requires a != [] && SepFree(a, IsIdSeparator) && b != [] && SepFree(b, IsIdSeparator)
    ensures ManualTokens(a + ", " + b + " " + a) == [a] + [b] + [a]
  {
    LastToken(a);
    TokenThenSeparators(b, " ", a);
    TokenThenSeparators(a, ", ", b + " " + a);
    assert a + ", " + b + " " + a == a + ", " + (b + " " + a);
  }

  lemma DedupRepeat<T>(a: T, b: T)
    requires a != b
    ensures Dedup([a] + [b] + [a]) == [a] + [b]
  {
    DedupSnoc([], a);
    assert [] + [a] == [a];
    DedupSnoc([a], b);
    DedupSnoc([a] + [b], a);
  }

  /** "a1, b2 a1" names two recipients, "a1" and then "b2". */
  lemma ManualExample()
    ensures ManualIds("a1" + ", " + "b2" + " " + "a1") == ["a1", "b2"]
  {
    RepeatedIdKeptOnce("a1", "b2");
  }
}
