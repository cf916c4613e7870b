/** How the sender decides whether one message went through (`contains_any` and the
    verdict part of `send_one`): the texts of the dialogs and toasts shown after sending
    are normalised for whitespace and searched for the site's success and failure phrases,
    success first; no verdict at all counts as a failure. */
module OutcomeClassifier {
  import opened PyText

  // ---------------------------------------------------------------- normalisation

  /** `s.split()`: the maximal runs of non-whitespace. */
  function Words(s: string): seq<string>
  {
    SplitRuns(s, IsSpace)
  }

  /** Words as `split()` produces them: non-empty and free of whitespace. */
  predicate ValidWords(ws: seq<string>)
  {
    forall k :: 0 <= k < |ws| ==> ws[k] != [] && SepFree(ws[k], IsSpace)
  }

  /** Whitespace only as single plain spaces between two non-whitespace characters. */
  predicate Tidy(r: string)
  {
    forall k :: 0 <= k < |r| && IsSpace(r[k]) ==>
      r[k] == ' ' && 0 < k < |r| - 1 && !IsSpace(r[k - 1]) && !IsSpace(r[k + 1])
  }

  /** `" ".join(s.split())`: the same non-whitespace characters in the same order, with
      every whitespace run turned into one plain space and none at either end. */
  function Normalize(s: string): string
  {
    JoinWith(" ", Words(s))
  }

  /** Normalising leaves only single plain spaces between non-whitespace characters and
      keeps every non-whitespace character in order. */
  lemma NormalizeShape(s: string)
    ensures Tidy(Normalize(s))
    ensures Keep(Normalize(s), IsSpace) == Keep(s, IsSpace)
  {
    JoinTidy(Words(s));
    JoinKeep(Words(s));
  }

  lemma {:induction false} JoinTidy(ws: seq<string>)
    requires ValidWords(ws)
    ensures Tidy(JoinWith(" ", ws))
    ensures ws != [] ==> JoinWith(" ", ws) != [] &&
                         !IsSpace(JoinWith(" ", ws)[0]) &&
                         !IsSpace(JoinWith(" ", ws)[|JoinWith(" ", ws)| - 1])
  {
    if |ws| > 1 {
      var w, j := ws[0], JoinWith(" ", ws[1..]);
      JoinTidy(ws[1..]);
      var r := w + " " + j;
      assert r == JoinWith(" ", ws);
      forall k | 0 <= k < |r| && IsSpace(r[k])
        ensures r[k] == ' ' && 0 < k < |r| - 1 && !IsSpace(r[k - 1]) && !IsSpace(r[k + 1])
      {
        if k > |w| {
          assert r[k] == j[k - |w| - 1];
          assert j[k - |w| - 1 + 1] == r[k + 1];
        }
      }
    }
  }

  /** Joining words with single spaces keeps exactly their characters, in order. */
  lemma {:induction false} JoinKeep(ws: seq<string>)
    requires ValidWords(ws)
    ensures Keep(JoinWith(" ", ws), IsSpace) == Concat(ws)
  {
    if |ws| == 1 {
      KeepSepFree(ws[0], IsSpace);
      assert Concat(ws) == ws[0] + Concat([]);
      assert ws[0] + [] == ws[0];
    } else if |ws| > 1 {
      var w, j := ws[0], JoinWith(" ", ws[1..]);
      JoinKeep(ws[1..]);
      assert w + " " + j == w + (" " + j);
      KeepAppend(w, " " + j, IsSpace);
      KeepAppend(" ", j, IsSpace);
      KeepSepFree(w, IsSpace);
      assert Keep(" ", IsSpace) == [];
      assert Keep(" " + j, IsSpace) == Keep(j, IsSpace);
      assert Concat(ws) == w + Concat(ws[1..]);
    }
  }

  /** `split()` undoes `" ".join` of proper words. */
  lemma {:induction false} WordsJoin(ws: seq<string>)
    requires ValidWords(ws)
    ensures Words(JoinWith(" ", ws)) == ws
  {
    if |ws| == 1 {
      SplitRunsWhole(ws[0], IsSpace);
    } else if |ws| > 1 {
      WordsJoin(ws[1..]);
      SplitRunsBreak(ws[0], " ", JoinWith(" ", ws[1..]), IsSpace);
      assert ws == [ws[0]] + ws[1..];
    }
  }

  /** Normalising keeps the words and is idempotent. */
  lemma NormalizeKeepsWords(s: string)
    ensures Words(Normalize(s)) == Words(s)
    ensures Normalize(Normalize(s)) == Normalize(s)
  {
    WordsJoin(Words(s));
  }

  // ---------------------------------------------------------------- phrase search

  /** `any(n in hay for n in needles)` */
  function AnyOccurs(needles: seq<string>, hay: string): bool
  {
    if needles == [] then false
    else Occurs(needles[0], hay) || AnyOccurs(needles[1..], hay)
  }

  /** Some needle is a substring of the haystack exactly when `AnyOccurs` says so. */
  lemma {:induction false} AnyOccursMeaning(needles: seq<string>, hay: string)
    ensures AnyOccurs(needles, hay) <==>
              exists k :: 0 <= k < |needles| && IsSubstring(needles[k], hay)
  {
    if needles != [] {
      OccursMeaning(needles[0], hay);
      AnyOccursMeaning(needles[1..], hay);
      if AnyOccurs(needles[1..], hay) {
        var k :| 0 <= k < |needles[1..]| && IsSubstring(needles[1..][k], hay);
        assert needles[k + 1] == needles[1..][k];
      }
      if exists k :: 0 <= k < |needles| && IsSubstring(needles[k], hay) {
        var k :| 0 <= k < |needles| && IsSubstring(needles[k], hay);
        if k > 0 {
          assert needles[1..][k - 1] == needles[k];
        }
      }
    }
  }

  /** `contains_any(s, needles)`: normalise the text once, then look for each needle. */
  function ContainsAny(s: string, needles: seq<string>): bool
  {
    AnyOccurs(needles, Normalize(s))
  }

  /** A text contains one of the needles exactly when some needle is a substring of its
      normalised form. */
  lemma ContainsAnyMeaning(s: string, needles: seq<string>)
    ensures ContainsAny(s, needles) <==>
              exists k :: 0 <= k < |needles| && IsSubstring(needles[k], Normalize(s))
  {
    AnyOccursMeaning(needles, Normalize(s));
  }

  /** Only the words matter: two texts that differ only in their whitespace match the same
      phrases. */
  lemma ContainsAnyIgnoresSpacing(s1: string, s2: string, needles: seq<string>)
    requires Words(s1) == Words(s2)
    ensures ContainsAny(s1, needles) == ContainsAny(s2, needles)
  {
  }

  // ---------------------------------------------------------------- verdict

  /** The phrases of a confirmed delivery. */
  const SuccessKeys: seq<string> :=
    ["전송되었습니다", "쪽지가 전송", "메시지가 전송", "성공적으로 전송", "완료"]

  /** The phrases of a refusal: blocked, restricted, declined, not permitted. */
  const FailKeys: seq<string> :=
    ["차단", "제한", "수신 거부", "쪽지를 받지", "보낼 수 없습니다", "권한이 없습니다"]

  /** What the feedback says: success, failure, or nothing recognisable (`ok` left `None`). */
  datatype Verdict = Success | Failure | Undetermined

  /** Some text of the feedback mentions one of `keys`. */
  function Mentions(texts: seq<string>, keys: seq<string>): bool
  {
    if texts == [] then false
    else ContainsAny(texts[0], keys) || Mentions(texts[1..], keys)
  }

  /** Some text mentions a key exactly when `Mentions` says so. */
  lemma {:induction false} MentionsMeaning(texts: seq<string>, keys: seq<string>)
    ensures Mentions(texts, keys) <==> exists i :: 0 <= i < |texts| && ContainsAny(texts[i], keys)
  {
    if texts != [] {
      MentionsMeaning(texts[1..], keys);
      if Mentions(texts[1..], keys) {
        var i :| 0 <= i < |texts[1..]| && ContainsAny(texts[1..][i], keys);
        assert texts[i + 1] == texts[1..][i];
      }
      if exists i :: 0 <= i < |texts| && ContainsAny(texts[i], keys) {
        var i :| 0 <= i < |texts| && ContainsAny(texts[i], keys);
        if i > 0 {
          assert texts[1..][i - 1] == texts[i];
        }
      }
    }
  }

  /** The index of the first text that mentions one of `keys`, or `|texts|` when none does. */
  function FirstHit(texts: seq<string>, keys: seq<string>): (i: nat)
    ensures i <= |texts|
    ensures i < |texts| ==> ContainsAny(texts[i], keys)
    ensures forall k :: 0 <= k < i ==> !ContainsAny(texts[k], keys)
    ensures (i < |texts|) == Mentions(texts, keys)
  {
    if texts == [] then 0
    else if ContainsAny(texts[0], keys) then 0
    else
      var i := 1 + FirstHit(texts[1..], keys);
      assert forall k :: 1 <= k < i ==> texts[k] == texts[1..][k - 1];
      i
  }

  /** The verdict: success phrases are looked for first, in all texts; failure phrases only
      when none was found. */
  function Judge(texts: seq<string>, successKeys: seq<string>, failKeys: seq<string>): Verdict
  {
    if Mentions(texts, successKeys) then Success
    else if Mentions(texts, failKeys) then Failure
    else Undetermined
  }

  /** The verdict with the phrase lists `send_one` uses. */
  function Classify(texts: seq<string>): Verdict
  {
    Judge(texts, SuccessKeys, FailKeys)
  }

  /** One pass of `send_one` over the feedback: stop at the first text that mentions one
      of `keys`. */
  method ScanFeedback(texts: seq<string>, keys: seq<string>) returns (found: bool)
    ensures found == Mentions(texts, keys)
  {
    found := false;
    var i := 0;
    while i < |texts|
      invariant i <= |texts| && i <= FirstHit(texts, keys)
    {
      if ContainsAny(texts[i], keys) {
        found := true;
        break;
      }
      i := i + 1;
    }
  }

  /** The verdict part of `send_one`: a pass looking for success phrases, then, only when it
      found none, a pass looking for failure phrases. */
  method JudgeFeedback(texts: seq<string>, successKeys: seq<string>, failKeys: seq<string>)
      returns (verdict: Verdict)
    ensures verdict == Judge(texts, successKeys, failKeys)
  {
    verdict := Undetermined;
    var succeeded := ScanFeedback(texts, successKeys);
    if succeeded {
      verdict := Success;
    }
    if verdict == Undetermined {
      var failed := ScanFeedback(texts, failKeys);
      if failed {
        verdict := Failure;
      }
    }
  }

  /** The verdict is a success exactly when some text mentions a success phrase, whatever
      failure phrases are present too; it is a failure exactly when no text mentions a success
      phrase and some text mentions a failure phrase. */
  lemma JudgeMeaning(texts: seq<string>, successKeys: seq<string>, failKeys: seq<string>)
    ensures Judge(texts, successKeys, failKeys) == Success <==>
              exists i :: 0 <= i < |texts| && ContainsAny(texts[i], successKeys)
    ensures Judge(texts, successKeys, failKeys) == Failure <==>
              (forall i :: 0 <= i < |texts| ==> !ContainsAny(texts[i], successKeys)) &&
              (exists i :: 0 <= i < |texts| && ContainsAny(texts[i], failKeys))
  {
    MentionsMeaning(texts, successKeys);
    MentionsMeaning(texts, failKeys);
  }

  /** What the browser reports for one attempt: the compose form could not be used (the
      recipient box, the message box or the send button never appeared), or the texts of
      the dialogs shown afterwards. */
  datatype ChannelReply = Unavailable | Feedback(texts: seq<string>)

  /** `send_one`'s result: false when the form was unusable, otherwise the judged verdict. */
  function Delivered(reply: ChannelReply): bool
  {
    match reply
    case Unavailable => false
    case Feedback(texts) => Classify(texts) == Success
  }

  /** A message went through exactly when the form was usable and some text of the feedback
      mentions a success phrase. */
  lemma DeliveredMeaning(reply: ChannelReply)
    ensures Delivered(reply) <==>
              reply.Feedback? &&
              exists i :: 0 <= i < |reply.texts| && ContainsAny(reply.texts[i], SuccessKeys)
  {
    if reply.Feedback? {
      MentionsMeaning(reply.texts, SuccessKeys);
    }
  }

  /** `send_one` from the moment the message has been submitted: an unusable form is a
      failure, otherwise the feedback is judged. */
  method SendOne(reply: ChannelReply) returns (ok: bool)
    ensures ok == Delivered(reply)
  {
    match reply
    case Unavailable =>
      ok := false;
    case Feedback(texts) =>
      var verdict := JudgeFeedback(texts, SuccessKeys, FailKeys);
      ok := verdict == Success;
  }

  /** No feedback is no delivery. */
  lemma SilenceIsFailure()
    ensures Classify([]) == Undetermined
    ensures !Delivered(Feedback([]))
  {
  }

  /** A success phrase anywhere wins over failure phrases anywhere. */
  lemma SuccessWins(texts: seq<string>, i: nat)
    requires i < |texts| && ContainsAny(texts[i], SuccessKeys)
    ensures Classify(texts) == Success
    ensures Delivered(Feedback(texts))
  {
    MentionsMeaning(texts, SuccessKeys);
  }

  /** Without any success phrase, a failure phrase in some text makes the verdict a failure. */
  lemma FailureWithoutSuccess(texts: seq<string>, i: nat)
    requires forall j :: 0 <= j < |texts| ==> !ContainsAny(texts[j], SuccessKeys)
    requires i < |texts| && ContainsAny(texts[i], FailKeys)
    ensures Classify(texts) == Failure
    ensures !Delivered(Feedback(texts))
  {
    MentionsMeaning(texts, SuccessKeys);
    MentionsMeaning(texts, FailKeys);
  }

  /** Feedback that matches neither phrase list is undetermined, and that counts as no
      delivery. */
  lemma NoMatchIsFailure(texts: seq<string>)
    requires forall j :: 0 <= j < |texts| ==>
               !ContainsAny(texts[j], SuccessKeys) && !ContainsAny(texts[j], FailKeys)
    ensures Classify(texts) == Undetermined
    ensures !Delivered(Feedback(texts))
  {
    MentionsMeaning(texts, SuccessKeys);
    MentionsMeaning(texts, FailKeys);
  }

  /** A phrase with a space matches across any whitespace run, line breaks included: the
      two halves of "declined" are found as one refusal phrase once the text is normalised. */
  lemma SplitPhraseIsFound(gap: string, t: string)
    requires gap != [] && AllSpace(gap)
    requires t == "수신" + gap + "거부"
    ensures Normalize(t) == "수신 거부"
    ensures ContainsAny(t, FailKeys)
  {
    SplitPhraseNormalizes(gap, t);
    var n := "수신 거부";
    assert n == [] + n + [];
    OccursInside([], n, []);
    assert IsSubstring(FailKeys[2], Normalize(t));
    ContainsAnyMeaning(t, FailKeys);
  }

  /** The whitespace run between the two halves becomes one plain space. */
  lemma SplitPhraseNormalizes(gap: string, t: string)
    requires gap != [] && AllSpace(gap)
    requires t == "수신" + gap + "거부"
    ensures Normalize(t) == "수신 거부"
  {
    SplitPhraseWords(gap, t);
    assert JoinWith(" ", ["수신", "거부"]) == "수신 거부";
  }

  /** The two halves are the text's two words. */
  lemma SplitPhraseWords(gap: string, t: string)
    requires gap != [] && AllSpace(gap)
    requires t == "수신" + gap + "거부"
    ensures Words(t) == ["수신", "거부"]
  {
    HalvesHoldNoSpace();
    SplitRunsBreak("수신", gap, "거부", IsSpace);
    SplitRunsWhole("거부", IsSpace);
  }

  /** Neither half holds whitespace. */
  lemma HalvesHoldNoSpace()
    ensures SepFree("수신", IsSpace) && SepFree("거부", IsSpace)
  {
  }

  /** A notice that mentions a block and a completion ("unblocking done") is a success,
      because success phrases are checked first. */
  lemma CompletionBeatsBlock(t: string)
    requires t == "차단 해제 완료"
    ensures Classify([t]) == Success
  {
    CompletionIsSuccessPhrase(t);
    SuccessWins([t], 0);
  }

  /** The notice holds the completion phrase. */
  lemma CompletionIsSuccessPhrase(t: string)
    requires t == "차단 해제 완료"
    ensures ContainsAny(t, SuccessKeys)
  {
    CompletionIsNormal(t);
    assert t == "차단 해제 " + SuccessKeys[4] + [];
    OccursInside("차단 해제 ", SuccessKeys[4], []);
    ContainsAnyMeaning(t, SuccessKeys);
  }

  /** The notice is already in normal form. */
  lemma CompletionIsNormal(t: string)
    requires t == "차단 해제 완료"
    ensures Normalize(t) == t
  {
    var ws := ["차단", "해제", "완료"];
    assert t == JoinWith(" ", ws);
    CompletionWords(ws);
    TidyTextIsNormal(ws);
  }

  /** The notice's three words hold no whitespace. */
  lemma CompletionWords(ws: seq<string>)
    requires ws == ["차단", "해제", "완료"]
    ensures ValidWords(ws)
  {
  }

  /** Words joined by single spaces are already normalised. */
  lemma TidyTextIsNormal(ws: seq<string>)
    requires ValidWords(ws)
    ensures Normalize(JoinWith(" ", ws)) == JoinWith(" ", ws)
  {
    WordsJoin(ws);
  }
}
