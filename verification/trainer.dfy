/** The dictation routes of the app: starting a dictation, showing the
    current sentence, checking an answer, moving on, and the results page
    that sums up the run and clears it from the session. Each route is a
    function from the session (and the request's form value) to the new
    session and the response; every route sits behind the login guard. */
module Trainer {
  import opened Outcomes
  import opened SessionStore
  import opened Text
  import Comparator
  import Diktat
  import Auth
  import Seqs

  const DiktatNameKey := "diktat_name"
  const SentencesKey := "sentences"
  const CurrentIndexKey := "current_index"
  const FeedbackKey := "feedback"
  const IsCorrectKey := "is_correct"
  const AttemptsKey := "attempts"

  /** The keys the results page pops. */
  const RunKeys: set<string> :=
    {DiktatNameKey, SentencesKey, CurrentIndexKey, FeedbackKey, IsCorrectKey, AttemptsKey}

  /** The keys starting a dictation sets. */
  const StartKeys: set<string> :=
    {DiktatNameKey, SentencesKey, CurrentIndexKey, FeedbackKey, AttemptsKey}

  /** The keys checking an answer sets. */
  const CheckKeys: set<string> := {FeedbackKey, IsCorrectKey, AttemptsKey}

  const UnknownName := "Unbekannt"

  datatype Endpoint = ToIndex | ToTrain | ToResults

  /** The statistics the results page is rendered from. `correct` is
      computed by the route but not handed to the page. */
  datatype Summary = Summary(
    diktatName: Value,
    attempts: seq<Attempt>,
    correct: seq<Attempt>,
    incorrect: seq<Attempt>,
    totalSentences: nat,
    correctSentences: nat,
    totalWords: nat,
    correctWords: nat)

  datatype Response =
    | Redirect(to: Endpoint)
    | LoginRedirect(next: string)
    | TrainView(sentence: string, number: int, total: nat, feedback: Value)
    | ResultsView(summary: Summary)
    | ServerError(fault: Fault)

  /** A route's effect: the session after the request, and the response. */
  datatype Step = Step(session: Session, response: Response)

  /** The progress of a run, when the session holds its three keys with
      the kinds of value the app stores there. */
  datatype Run = Run(sentences: seq<string>, index: int, log: seq<Attempt>)

  function RunOf(s: Session): Option<Run>
  {
    if SentencesKey in s && CurrentIndexKey in s && AttemptsKey in s
       && s[SentencesKey].StrList? && s[CurrentIndexKey].Int? && s[AttemptsKey].AttemptLog?
    then Some(Run(s[SentencesKey].items, s[CurrentIndexKey].i, s[AttemptsKey].log))
    else None
  }

  /** The sentence list and the index are present and of the stored kinds. */
  predicate Positioned(s: Session)
  {
    SentencesKey in s && CurrentIndexKey in s && s[SentencesKey].StrList? && s[CurrentIndexKey].Int?
  }

  /** The attempts already recorded; none when the key is absent. */
  function PriorLog(s: Session): seq<Attempt>
  {
    if AttemptsKey in s && s[AttemptsKey].AttemptLog? then s[AttemptsKey].log else []
  }

  // ---------------------------------------------------------------- start

  /** The name a started dictation is shown under: its `titel` header, or
      the file name with `.txt` removed. */
  function DisplayName(diktat: string, metadata: map<string, string>): (r: string)
    ensures "titel" in metadata ==> r == metadata["titel"]
    ensures "titel" !in metadata ==> r == RemoveTxt(diktat)
  {
    if "titel" in metadata then metadata["titel"] else RemoveTxt(diktat)
  }

  /** The name is one the dictation list offers. */
  predicate Offered(diktat: string, listing: seq<string>)
  {
    diktat != "" && diktat in listing && EndsWith(diktat, ".txt")
  }

  /** `start_diktat`: a missing, empty or unlisted name sends the user back
      to the index and changes nothing; otherwise a fresh run of the parsed
      sentences is put in the session. `is_correct` is left as it was. */
  function StartDiktat(s: Session, diktat: Option<string>, listing: seq<string>, read: string -> seq<string>)
    : (r: Step)
    ensures diktat.None? || !Offered(diktat.value, listing) ==> r == Step(s, Redirect(ToIndex))
    ensures diktat.Some? && Offered(diktat.value, listing) ==>
              var d := Diktat.ParseDiktat(read(diktat.value));
              && r.response == Redirect(ToTrain)
              && RunOf(r.session) == Some(Run(d.sentences, 0, []))
              && r.session.Keys == s.Keys + StartKeys
              && r.session[FeedbackKey] == Null
              && r.session[DiktatNameKey] == Str(DisplayName(diktat.value, d.metadata))
    ensures forall k :: k in s && k !in StartKeys ==> k in r.session && r.session[k] == s[k]
  {
    if diktat.None? || diktat.value == "" || diktat.value !in Diktat.DiktateList(listing) then
      Step(s, Redirect(ToIndex))
    else
      var d := Diktat.ParseDiktat(read(diktat.value));
      Step(FreshRun(s, DisplayName(diktat.value, d.metadata), d.sentences), Redirect(ToTrain))
  }

  /** The session at the start of a run of `sentences` shown as `title`. */
  function FreshRun(s: Session, title: string, sentences: seq<string>): (r: Session)
    ensures RunOf(r) == Some(Run(sentences, 0, []))
    ensures r.Keys == s.Keys + StartKeys
    ensures r[FeedbackKey] == Null && r[DiktatNameKey] == Str(title)
    ensures forall k :: k in s && k !in StartKeys ==> k in r && r[k] == s[k]
  {
    s[DiktatNameKey := Str(title)]
     [SentencesKey := StrList(sentences)]
     [CurrentIndexKey := Int(0)]
     [FeedbackKey := Null]
     [AttemptsKey := AttemptLog([])]
  }

  // ---------------------------------------------------------------- train

  /** `train`: the current sentence, numbered from 1, while the index lies
      inside the list (a negative index counts from the end, as in Python);
      the results page once the index has reached the end; the index page
      when there is no run. The session is not changed. */
  function Train(s: Session): (r: Response)
    ensures SentencesKey !in s || CurrentIndexKey !in s ==> r == Redirect(ToIndex)
    ensures Positioned(s) ==>
              var ss, i := s[SentencesKey].items, s[CurrentIndexKey].i;
              && (i >= |ss| <==> r == Redirect(ToResults))
              && (0 <= i < |ss| ==> r == TrainView(ss[i], i + 1, |ss|, Get(s, FeedbackKey, Null)))
              && (i < -|ss| <==> r == ServerError(IndexError))
    ensures r.TrainView? ==>
              && Positioned(s)
              && r.total == |s[SentencesKey].items|
              && r.sentence in s[SentencesKey].items
              && r.feedback == Get(s, FeedbackKey, Null)
  {
    if SentencesKey !in s || CurrentIndexKey !in s then Redirect(ToIndex)
    else match (s[SentencesKey], s[CurrentIndexKey])
      case (StrList(ss), Int(i)) =>
        if i >= |ss| then Redirect(ToResults)
        else (match PyIndex(ss, i)
          case Ok(sentence) => TrainView(sentence, i + 1, |ss|, Get(s, FeedbackKey, Null))
          case Err(fault) => ServerError(fault))
      case _ => ServerError(TypeError)
  }

  // ---------------------------------------------------------------- check

  /** The attempt `check_answer` records for an answer. */
  function AttemptFor(original: string, userInput: string): (a: Attempt)
    ensures a.original == original && a.userInput == userInput
    ensures a.isCorrect <==> Split(original) == Split(userInput)
    ensures Comparator.Reference(a.feedback) == Split(original)
    ensures Comparator.Submission(a.feedback) == Split(userInput)
  {
    var c := Comparator.CompareTexts(original, userInput);
    Attempt(original, userInput, c.verdicts, c.isCorrect)
  }

  /** `s'` is `s` after recording attempt `a`: the feedback and the verdict
      are set, the attempt is appended, and nothing else changes. */
  predicate Records(s: Session, s': Session, a: Attempt)
  {
    && s'.Keys == s.Keys + CheckKeys
    && s'[FeedbackKey] == Feedback(a.feedback)
    && s'[IsCorrectKey] == Bool(a.isCorrect)
    && s'[AttemptsKey] == AttemptLog(PriorLog(s) + [a])
    && forall k :: k in s && k !in CheckKeys ==> s'[k] == s[k]
  }

  /** `check_answer`: compares the answer with the current sentence, keeps
      the verdicts as feedback and appends one attempt. The index is not
      advanced, so checking twice records the sentence twice. A missing key
      or an index outside the list raises before anything is changed. */
  function CheckAnswer(s: Session, userInput: string): (r: Step)
    ensures SentencesKey !in s ==> r == Step(s, ServerError(KeyError(SentencesKey)))
    ensures SentencesKey in s && CurrentIndexKey !in s ==>
              r == Step(s, ServerError(KeyError(CurrentIndexKey)))
    ensures Positioned(s) ==>
              var ss, i := s[SentencesKey].items, s[CurrentIndexKey].i;
              && (!(-|ss| <= i < |ss|) ==> r == Step(s, ServerError(IndexError)))
              && (0 <= i < |ss| && (AttemptsKey !in s || s[AttemptsKey].AttemptLog?) ==>
                    && r.response == Redirect(ToTrain)
                    && Records(s, r.session, AttemptFor(ss[i], userInput)))
    ensures r.response == Redirect(ToTrain) ==>
              && Positioned(s)
              && RunOf(r.session).Some?
              && |RunOf(r.session).value.log| == |PriorLog(s)| + 1
  {
    if SentencesKey !in s then Step(s, ServerError(KeyError(SentencesKey)))
    else if CurrentIndexKey !in s then Step(s, ServerError(KeyError(CurrentIndexKey)))
    else match (s[SentencesKey], s[CurrentIndexKey])
      case (StrList(ss), Int(i)) =>
        (match PyIndex(ss, i)
          case Err(fault) => Step(s, ServerError(fault))
          case Ok(original) => Record(s, AttemptFor(original, userInput)))
      case _ => Step(s, ServerError(TypeError))
  }

  /** The second half of `check_answer`: the feedback and the verdict are
      stored, then the attempt is appended to the attempts, which are
      created when absent; `append` on a value that is no list raises
      AttributeError. */
  function Record(s: Session, a: Attempt): (r: Step)
    ensures AttemptsKey !in s || s[AttemptsKey].AttemptLog? ==>
              r.response == Redirect(ToTrain) && Records(s, r.session, a)
    ensures AttemptsKey in s && !s[AttemptsKey].AttemptLog? ==>
              && r.response == ServerError(AttributeError)
              && r.session == s[FeedbackKey := Feedback(a.feedback)][IsCorrectKey := Bool(a.isCorrect)]
    ensures forall k :: k in s && k !in CheckKeys ==> k in r.session && r.session[k] == s[k]
    ensures Positioned(s) && r.response == Redirect(ToTrain) ==>
              RunOf(r.session) == Some(Run(s[SentencesKey].items, s[CurrentIndexKey].i, PriorLog(s) + [a]))
  {
    var s1 := s[FeedbackKey := Feedback(a.feedback)][IsCorrectKey := Bool(a.isCorrect)];
    if AttemptsKey !in s1 then Step(s1[AttemptsKey := AttemptLog([a])], Redirect(ToTrain))
    else match s1[AttemptsKey]
      case AttemptLog(log) => Step(s1[AttemptsKey := AttemptLog(log + [a])], Redirect(ToTrain))
      case _ => Step(s1, ServerError(AttributeError))
  }

  /** Whatever the session holds, checking changes no key outside the
      feedback, the verdict and the attempts. */
  lemma CheckAnswerKeepsOthers(s: Session, userInput: string, k: string)
    requires k in s && k !in CheckKeys
    ensures k in CheckAnswer(s, userInput).session
    ensures CheckAnswer(s, userInput).session[k] == s[k]
  {
  }

  // ----------------------------------------------------------------- next

  /** `next_sentence`: advances the index by one and clears the feedback
      and the verdict. Nothing checks that the sentence was answered or
      that the index stays inside the list. */
  function NextSentence(s: Session): (r: Step)
    ensures CurrentIndexKey !in s ==> r == Step(s, ServerError(KeyError(CurrentIndexKey)))
    ensures CurrentIndexKey in s && s[CurrentIndexKey].Int? ==>
              && r.response == Redirect(ToTrain)
              && r.session.Keys == s.Keys + {FeedbackKey, IsCorrectKey}
              && r.session[CurrentIndexKey] == Int(s[CurrentIndexKey].i + 1)
              && r.session[FeedbackKey] == Null
              && r.session[IsCorrectKey] == Null
    ensures forall k :: k in s && k !in {CurrentIndexKey, FeedbackKey, IsCorrectKey} ==>
              k in r.session && r.session[k] == s[k]
  {
    if CurrentIndexKey !in s then Step(s, ServerError(KeyError(CurrentIndexKey)))
    else match s[CurrentIndexKey]
      case Int(i) =>
        Step(s[CurrentIndexKey := Int(i + 1)][FeedbackKey := Null][IsCorrectKey := Null], Redirect(ToTrain))
      case _ => Step(s, ServerError(TypeError))
  }

  // -------------------------------------------------------------- results

  predicate IsCorrectAttempt(a: Attempt) { a.isCorrect }

  predicate IsIncorrectAttempt(a: Attempt) { !a.isCorrect }

  /** Words of each original, summed over the attempts. */
  function TotalWords(log: seq<Attempt>): nat
  {
    if log == [] then 0
    else TotalWords(log[..|log| - 1]) + |Split(log[|log| - 1].original)|
  }

  /** Positions below `n` where the two word lists agree. */
  function MatchesBelow(ow: seq<string>, uw: seq<string>, n: nat): nat
    requires n <= |ow| && n <= |uw|
  {
    if n == 0 then 0
    else MatchesBelow(ow, uw, n - 1) + (if ow[n - 1] == uw[n - 1] then 1 else 0)
  }

  function Min(a: nat, b: nat): nat { if a <= b then a else b }

  /** The word-by-word comparison of the results page: equal words at equal
      positions, up to the shorter list. */
  function PositionalMatches(ow: seq<string>, uw: seq<string>): nat
  {
    MatchesBelow(ow, uw, Min(|ow|, |uw|))
  }

  /** Positionally matching words, summed over the attempts. */
  function CorrectWords(log: seq<Attempt>): nat
  {
    if log == [] then 0
    else
      var a := log[|log| - 1];
      CorrectWords(log[..|log| - 1]) + PositionalMatches(Split(a.original), Split(a.userInput))
  }

  /** The positions counted, as a set. */
  lemma {:induction false} MatchesBelowCounts(ow: seq<string>, uw: seq<string>, n: nat)
    requires n <= |ow| && n <= |uw|
    ensures MatchesBelow(ow, uw, n) == |set i | 0 <= i < n && ow[i] == uw[i]|
    ensures MatchesBelow(ow, uw, n) <= n
  {
    var below := set i | 0 <= i < n && ow[i] == uw[i];
    if n == 0 {
      assert below == {};
    } else {
      MatchesBelowCounts(ow, uw, n - 1);
      var prev := set i | 0 <= i < n - 1 && ow[i] == uw[i];
      if ow[n - 1] == uw[n - 1] {
        assert below == prev + {n - 1};
      } else {
        assert below == prev;
      }
    }
  }

  /** The positional count is the number of agreeing positions, and is
      bounded by both lengths. */
  lemma PositionalMatchesCounts(ow: seq<string>, uw: seq<string>)
    ensures PositionalMatches(ow, uw) == |set i | 0 <= i < Min(|ow|, |uw|) && ow[i] == uw[i]|
    ensures PositionalMatches(ow, uw) <= |ow| && PositionalMatches(ow, uw) <= |uw|
  {
    MatchesBelowCounts(ow, uw, Min(|ow|, |uw|));
  }

  /** Lists that agree on the first `n` positions match at all of them. */
  lemma {:induction false} MatchesBelowAgree(ow: seq<string>, uw: seq<string>, n: nat)
    requires n <= |ow| && n <= |uw|
    requires forall i :: 0 <= i < n ==> ow[i] == uw[i]
    ensures MatchesBelow(ow, uw, n) == n
  {
    if n > 0 {
      MatchesBelowAgree(ow, uw, n - 1);
    }
  }

  /** Matching words are never more than the words of the originals. */
  lemma {:induction false} CorrectWordsBound(log: seq<Attempt>)
    ensures CorrectWords(log) <= TotalWords(log)
  {
    if log != [] {
      var a := log[|log| - 1];
      CorrectWordsBound(log[..|log| - 1]);
      PositionalMatchesCounts(Split(a.original), Split(a.userInput));
    }
  }

  /** An answer whose words equal the original's scores every word. */
  lemma {:induction false} CorrectAnswersScoreFully(log: seq<Attempt>)
    requires forall i :: 0 <= i < |log| ==> Split(log[i].userInput) == Split(log[i].original)
    ensures CorrectWords(log) == TotalWords(log)
  {
    if log != [] {
      var a := log[|log| - 1];
      CorrectAnswersScoreFully(log[..|log| - 1]);
      var ws := Split(a.original);
      assert Split(a.userInput) == ws;
      MatchesBelowAgree(ws, ws, |ws|);
    }
  }

  /** Every attempt `check_answer` marked correct scores all its words. */
  lemma RecordedCorrectScoresFully(originals: seq<string>, inputs: seq<string>)
    requires |originals| == |inputs|
    requires forall i :: 0 <= i < |originals| ==> AttemptFor(originals[i], inputs[i]).isCorrect
    ensures CorrectWords(AttemptsFor(originals, inputs)) == TotalWords(AttemptsFor(originals, inputs))
  {
    var log := AttemptsFor(originals, inputs);
    forall i | 0 <= i < |log|
      ensures Split(log[i].userInput) == Split(log[i].original)
    {
      AttemptsForAt(originals, inputs, i);
    }
    CorrectAnswersScoreFully(log);
  }

  /** Positional counting gives full marks to an answer that only adds
      words after the original's, although the answer is marked wrong. */
  lemma ExtraTrailingWordsScoreFully(ws: seq<string>, extra: seq<string>)
    requires forall k :: 0 <= k < |ws| ==> IsWord(ws[k])
    requires forall k :: 0 <= k < |extra| ==> IsWord(extra[k])
    requires extra != []
    ensures !AttemptFor(Join(ws), Join(ws + extra)).isCorrect
    ensures PositionalMatches(Split(Join(ws)), Split(Join(ws + extra))) == |Split(Join(ws))|
  {
    SplitJoin(ws);
    assert forall k :: 0 <= k < |ws + extra| ==> IsWord((ws + extra)[k]);
    SplitJoin(ws + extra);
    assert |ws| < |ws + extra|;
    MatchesBelowAgree(ws, ws + extra, |ws|);
  }

  /** The statistics the results page shows. */
  function Summarize(name: Value, log: seq<Attempt>): (sm: Summary)
    ensures sm.diktatName == name && sm.attempts == log
    ensures sm.totalSentences == |log|
    ensures sm.correctSentences == |sm.correct|
    ensures forall i :: 0 <= i < |sm.correct| ==> sm.correct[i].isCorrect
    ensures forall i :: 0 <= i < |sm.incorrect| ==> !sm.incorrect[i].isCorrect
    ensures Seqs.IsSubseq(sm.correct, log) && Seqs.IsSubseq(sm.incorrect, log)
    ensures forall a :: a in log ==> (if a.isCorrect then a in sm.correct else a in sm.incorrect)
    ensures sm.correctSentences + |sm.incorrect| == sm.totalSentences
    ensures multiset(sm.correct) + multiset(sm.incorrect) == multiset(log)
    ensures sm.totalWords == TotalWords(log) && sm.correctWords == CorrectWords(log)
    ensures sm.correctWords <= sm.totalWords
  {
    var correct := Seqs.Filter(IsCorrectAttempt, log);
    var incorrect := Seqs.Filter(IsIncorrectAttempt, log);
    Seqs.FilterPartition(IsCorrectAttempt, IsIncorrectAttempt, log);
    CorrectWordsBound(log);
    Summary(name, log, correct, incorrect, |log|, |correct|, TotalWords(log), CorrectWords(log))
  }

  /** The inner loop of the results page: equal words at equal positions. */
  method CountMatches(ow: seq<string>, uw: seq<string>) returns (matched: nat)
    ensures matched == PositionalMatches(ow, uw)
    ensures matched <= |ow| && matched <= |uw|
  {
    var i := 0;
    matched := 0;
    while i < Min(|ow|, |uw|)
      invariant 0 <= i <= Min(|ow|, |uw|)
      invariant matched == MatchesBelow(ow, uw, i)
    {
      if ow[i] == uw[i] {
        matched := matched + 1;
      }
      i := i + 1;
    }
    PositionalMatchesCounts(ow, uw);
  }

  /** The counting loops of the results page, as written there: one pass
      over the attempts, and for each a pass over the shorter word list. */
  method Tally(log: seq<Attempt>) returns (totalSentences: nat, correctSentences: nat, totalWords: nat, correctWords: nat)
    ensures totalSentences == |log|
    ensures correctSentences == |Seqs.Filter(IsCorrectAttempt, log)|
    ensures totalWords == TotalWords(log)
    ensures correctWords == CorrectWords(log)
  {
    totalSentences := |log|;
    correctSentences, totalWords, correctWords := 0, 0, 0;
    var k := 0;
    while k < |log|
      invariant 0 <= k <= |log|
      invariant correctSentences == |Seqs.Filter(IsCorrectAttempt, log[..k])|
      invariant totalWords == TotalWords(log[..k])
      invariant correctWords == CorrectWords(log[..k])
    {
      var a := log[k];
      TallyStep(log, k);
      if a.isCorrect {
        correctSentences := correctSentences + 1;
      }
      var ow, uw := Split(a.original), Split(a.userInput);
      totalWords := totalWords + |ow|;
      var matched := CountMatches(ow, uw);
      correctWords := correctWords + matched;
      k := k + 1;
    }
    assert log[..|log|] == log;
  }

  lemma TallyStep(log: seq<Attempt>, k: nat)
    requires k < |log|
    ensures Seqs.Filter(IsCorrectAttempt, log[..k + 1])
            == Seqs.Filter(IsCorrectAttempt, log[..k]) + (if log[k].isCorrect then [log[k]] else [])
    ensures TotalWords(log[..k + 1]) == TotalWords(log[..k]) + |Split(log[k].original)|
    ensures CorrectWords(log[..k + 1])
            == CorrectWords(log[..k]) + PositionalMatches(Split(log[k].original), Split(log[k].userInput))
  {
    assert log[..k + 1][..k] == log[..k] && log[..k + 1] == log[..k] + [log[k]];
    Seqs.FilterSnoc(IsCorrectAttempt, log[..k], log[k]);
  }

  /** `results`: without recorded attempts, back to the index; otherwise
      the statistics of the attempts, and the whole run is popped from the
      session. */
  function Results(s: Session): (r: Step)
    ensures AttemptsKey !in s ==> r == Step(s, Redirect(ToIndex))
    ensures AttemptsKey in s && s[AttemptsKey].AttemptLog? ==>
              && r.session == s - RunKeys
              && r.response.ResultsView?
              && r.response.summary.attempts == s[AttemptsKey].log
              && r.response.summary.diktatName == Get(s, DiktatNameKey, Str(UnknownName))
    ensures r.response.ResultsView? ==> r.response.summary.correctWords <= r.response.summary.totalWords
    ensures forall k :: k in s && k !in RunKeys ==> k in r.session && r.session[k] == s[k]
  {
    if AttemptsKey !in s then Step(s, Redirect(ToIndex))
    else match s[AttemptsKey]
      case AttemptLog(log) =>
        Step(s - RunKeys, ResultsView(Summarize(Get(s, DiktatNameKey, Str(UnknownName)), log)))
      case _ => Step(s, ServerError(TypeError))
  }

  // -------------------------------------------------------------- routing

  datatype Request =
    | StartRequest(diktat: Option<string>)
    | TrainRequest
    | CheckRequest(userInput: Option<string>)
    | NextRequest
    | ResultsRequest

  /** The dictation folder: its file names and each file's lines. */
  datatype Folder = Folder(listing: seq<string>, read: string -> seq<string>)

  function Route(s: Session, req: Request, folder: Folder): Step
  {
    match req
    case StartRequest(diktat) => StartDiktat(s, diktat, folder.listing, folder.read)
    case TrainRequest => Step(s, Train(s))
    case CheckRequest(userInput) =>
      CheckAnswer(s, if userInput.Some? then userInput.value else "")
    case NextRequest => NextSentence(s)
    case ResultsRequest => Results(s)
  }

  /** A request to one of the dictation routes, behind `login_required`. */
  function Handle(s: Session, requestUrl: string, req: Request, folder: Folder): (r: Step)
    ensures Auth.UserIdKey !in s ==> r == Step(s, LoginRedirect(requestUrl))
    ensures Auth.UserIdKey in s ==> r == Route(s, req, folder)
  {
    match Auth.LoginRequired(s, requestUrl)
    case ToLogin(next) => Step(s, LoginRedirect(next))
    case Proceed => Route(s, req, folder)
  }

  /** No dictation route touches the login: a logged-in user stays logged
      in as the same user. */
  lemma RoutesKeepLogin(s: Session, requestUrl: string, req: Request, folder: Folder)
    requires Auth.UserIdKey in s
    ensures Auth.UserIdKey in Handle(s, requestUrl, req, folder).session
    ensures Handle(s, requestUrl, req, folder).session[Auth.UserIdKey] == s[Auth.UserIdKey]
  {
    assert Auth.UserIdKey !in RunKeys;
    if req.CheckRequest? {
      CheckAnswerKeepsOthers(s, if req.userInput.Some? then req.userInput.value else "", Auth.UserIdKey);
    }
  }

  // --------------------------------------------------------------- a run

  /** The keys answering and moving on may change. */
  const PlayKeys: set<string> := {CurrentIndexKey, FeedbackKey, IsCorrectKey, AttemptsKey}

  /** `a` and `b` hold the same keys with the same values outside `keys`. */
  ghost predicate Agree(a: Session, b: Session, keys: set<string>)
  {
    && (forall k :: k !in keys ==> (k in a <==> k in b))
    && (forall k :: k in a && k !in keys ==> a[k] == b[k])
  }

  lemma AgreeMinus(a: Session, b: Session, keys: set<string>)
    requires Agree(a, b, keys)
    ensures a - keys == b - keys
  {
    assert (a - keys).Keys == (b - keys).Keys;
  }

  /** Answering the current sentence and moving on. */
  function CheckThenNext(s: Session, userInput: string): Session
  {
    NextSentence(CheckAnswer(s, userInput).session).session
  }

  /** The attempts of answering `originals` with `inputs`, in order. */
  function AttemptsFor(originals: seq<string>, inputs: seq<string>): (log: seq<Attempt>)
    requires |originals| == |inputs|
    ensures |log| == |originals|
  {
    if originals == [] then []
    else [AttemptFor(originals[0], inputs[0])] + AttemptsFor(originals[1..], inputs[1..])
  }

  /** The `i`-th attempt answers the `i`-th sentence with the `i`-th input. */
  lemma {:induction false} AttemptsForAt(originals: seq<string>, inputs: seq<string>, i: nat)
    requires |originals| == |inputs| && i < |originals|
    ensures AttemptsFor(originals, inputs)[i] == AttemptFor(originals[i], inputs[i])
  {
    var log := AttemptsFor(originals, inputs);
    assert log == [AttemptFor(originals[0], inputs[0])] + AttemptsFor(originals[1..], inputs[1..]);
    if i > 0 {
      AttemptsForAt(originals[1..], inputs[1..], i - 1);
      assert log[i] == AttemptsFor(originals[1..], inputs[1..])[i - 1];
      assert originals[1..][i - 1] == originals[i] && inputs[1..][i - 1] == inputs[i];
    }
  }

  /** Every sentence before the index has exactly one attempt. */
  predicate InStep(run: Run)
  {
    run.index == |run.log| && 0 <= run.index <= |run.sentences|
  }

  /** Checking and then moving on records the current sentence once and
      keeps one attempt per sentence passed; keys outside the run are
      untouched. */
  lemma CheckThenNextAdvances(s: Session, userInput: string)
    requires RunOf(s).Some? && InStep(RunOf(s).value)
    requires RunOf(s).value.index < |RunOf(s).value.sentences|
    ensures var run := RunOf(s).value;
            RunOf(CheckThenNext(s, userInput))
            == Some(Run(run.sentences, run.index + 1,
                        run.log + [AttemptFor(run.sentences[run.index], userInput)]))
    ensures InStep(RunOf(CheckThenNext(s, userInput)).value)
    ensures Agree(CheckThenNext(s, userInput), s, PlayKeys)
    ensures CheckThenNext(s, userInput)[FeedbackKey] == Null
  {
    var run := RunOf(s).value;
    var a := AttemptFor(run.sentences[run.index], userInput);
    var s1 := CheckAnswer(s, userInput).session;
    assert Records(s, s1, a);
    assert RunOf(s1) == Some(run.(log := run.log + [a])) by {
      assert s1[SentencesKey] == s[SentencesKey] && s1[CurrentIndexKey] == s[CurrentIndexKey];
    }
    var s2 := NextSentence(s1).session;
    assert s2[AttemptsKey] == s1[AttemptsKey] && s2[SentencesKey] == s1[SentencesKey];
  }

  /** Checking during a run appends one attempt for the current sentence
      and leaves the sentences and the index alone. */
  lemma CheckRecords(s: Session, userInput: string)
    requires RunOf(s).Some?
    requires 0 <= RunOf(s).value.index < |RunOf(s).value.sentences|
    ensures var run := RunOf(s).value;
            RunOf(CheckAnswer(s, userInput).session)
            == Some(run.(log := run.log + [AttemptFor(run.sentences[run.index], userInput)]))
  {
    var run := RunOf(s).value;
    var s1 := CheckAnswer(s, userInput).session;
    assert Records(s, s1, AttemptFor(run.sentences[run.index], userInput));
    assert s1[SentencesKey] == s[SentencesKey] && s1[CurrentIndexKey] == s[CurrentIndexKey];
  }

  /** Checking twice before moving on records the same sentence twice. */
  lemma CheckTwiceRecordsTwice(s: Session, first: string, second: string)
    requires RunOf(s).Some?
    requires 0 <= RunOf(s).value.index < |RunOf(s).value.sentences|
    ensures var run := RunOf(s).value;
            var original := run.sentences[run.index];
            RunOf(CheckAnswer(CheckAnswer(s, first).session, second).session)
            == Some(run.(log := run.log + [AttemptFor(original, first), AttemptFor(original, second)]))
  {
    var run := RunOf(s).value;
    var original := run.sentences[run.index];
    var a1, a2 := AttemptFor(original, first), AttemptFor(original, second);
    var s1 := CheckAnswer(s, first).session;
    CheckRecords(s, first);
    assert RunOf(s1) == Some(run.(log := run.log + [a1]));
    CheckRecords(s1, second);
    assert run.log + [a1] + [a2] == run.log + [a1, a2];
  }

  /** Moving on without checking skips the sentence: the index runs one
      ahead of the attempts, and the results count one sentence fewer. */
  lemma NextWithoutCheckSkips(s: Session)
    requires RunOf(s).Some? && InStep(RunOf(s).value)
    ensures var run := RunOf(s).value;
            && RunOf(NextSentence(s).session) == Some(run.(index := run.index + 1))
            && !InStep(RunOf(NextSentence(s).session).value)
  {
  }

  /** A session in the middle of a run, with a sentence left to answer. */
  predicate Steppable(s: Session)
  {
    RunOf(s).Some? && InStep(RunOf(s).value) && RunOf(s).value.index < |RunOf(s).value.sentences|
  }

  /** `s'` is `s` with the current sentence answered by `u` and the index
      moved past it; keys outside the progress of the run are untouched. */
  ghost predicate StepsOnce(s: Session, s': Session, u: string)
    requires Steppable(s)
  {
    var run := RunOf(s).value;
    && RunOf(s') == Some(Run(run.sentences, run.index + 1,
                             run.log + [AttemptFor(run.sentences[run.index], u)]))
    && Agree(s', s, PlayKeys)
  }

  /** `step` answers and moves on wherever there is a sentence left. */
  ghost predicate Advances(step: (Session, string) -> Session)
  {
    forall s: Session, u: string :: Steppable(s) ==> StepsOnce(s, step(s, u), u)
  }

  lemma CheckThenNextAdvancesEverywhere()
    ensures Advances(CheckThenNext)
  {
    forall s: Session, u: string | Steppable(s)
      ensures StepsOnce(s, CheckThenNext(s, u), u)
    {
      CheckThenNextAdvances(s, u);
    }
  }

  /** Applying `step` once per input. */
  function PlayWith(step: (Session, string) -> Session, s: Session, inputs: seq<string>): Session
    decreases |inputs|
  {
    if inputs == [] then s else PlayWith(step, step(s, inputs[0]), inputs[1..])
  }

  /** Answering from `s` and moving on, once per input. */
  function Play(s: Session, inputs: seq<string>): Session
  {
    PlayWith(CheckThenNext, s, inputs)
  }

  /** Answering one sentence and then the rest records them in order. */
  lemma LogGrows(sentences: seq<string>, index: nat, upto: nat, log: seq<Attempt>, inputs: seq<string>)
    requires index < upto <= |sentences| && |inputs| == upto - index
    ensures log + [AttemptFor(sentences[index], inputs[0])] + AttemptsFor(sentences[index + 1..upto], inputs[1..])
            == log + AttemptsFor(sentences[index..upto], inputs)
  {
    var part := sentences[index..upto];
    assert part[0] == sentences[index];
    assert part[1..] == sentences[index + 1..upto];
    var first := [AttemptFor(sentences[index], inputs[0])];
    var rest := AttemptsFor(sentences[index + 1..upto], inputs[1..]);
    assert AttemptsFor(part, inputs) == first + rest;
    assert log + first + rest == log + (first + rest);
  }

  lemma AgreeWiden(a: Session, b: Session, keys: set<string>, more: set<string>)
    requires Agree(a, b, keys) && keys <= more
    ensures Agree(a, b, more)
  {
  }

  lemma AgreeTrans(a: Session, b: Session, c: Session, keys: set<string>)
    requires Agree(a, b, keys) && Agree(b, c, keys)
    ensures Agree(a, c, keys)
  {
  }

  /** One answer through a `step` that advances. */
  lemma StepOnce(step: (Session, string) -> Session, s: Session, run: Run, u: string)
    requires Advances(step)
    requires RunOf(s) == Some(run) && InStep(run) && run.index < |run.sentences|
    ensures RunOf(step(s, u)) == Some(Run(run.sentences, run.index + 1,
                                          run.log + [AttemptFor(run.sentences[run.index], u)]))
    ensures Agree(step(s, u), s, PlayKeys)
  {
    assert Steppable(s);
    assert StepsOnce(s, step(s, u), u);
  }

  /** Answering the sentences from the index up to `upto` records them in
      order. */
  lemma {:induction false} PlayRecords(step: (Session, string) -> Session, s: Session, run: Run,
                                       inputs: seq<string>, upto: int)
    requires Advances(step)
    requires RunOf(s) == Some(run) && InStep(run)
    requires upto == run.index + |inputs| <= |run.sentences|
    ensures RunOf(PlayWith(step, s, inputs))
            == Some(Run(run.sentences, upto, run.log + AttemptsFor(run.sentences[run.index..upto], inputs)))
    ensures Agree(PlayWith(step, s, inputs), s, PlayKeys)
    decreases |inputs|
  {
    if inputs == [] {
      assert run.sentences[run.index..run.index] == [];
      assert run.log + [] == run.log;
    } else {
      var s1 := step(s, inputs[0]);
      var run1 := Run(run.sentences, run.index + 1,
                      run.log + [AttemptFor(run.sentences[run.index], inputs[0])]);
      StepOnce(step, s, run, inputs[0]);
      var played := PlayWith(step, s1, inputs[1..]);
      assert PlayWith(step, s, inputs) == played;
      PlayRecords(step, s1, run1, inputs[1..], upto);
      LogGrows(run.sentences, run.index, upto, run.log, inputs);
      assert RunOf(played)
             == Some(Run(run.sentences, upto, run.log + AttemptsFor(run.sentences[run.index..upto], inputs)));
      AgreeTrans(played, s1, s, PlayKeys);
    }
  }

  /** Answering every sentence of a freshly started run records one attempt
      per sentence, in order. */
  lemma PlayFromStart(step: (Session, string) -> Session, started: Session,
                      sentences: seq<string>, inputs: seq<string>)
    requires Advances(step)
    requires RunOf(started) == Some(Run(sentences, 0, []))
    requires |inputs| == |sentences|
    ensures RunOf(PlayWith(step, started, inputs))
            == Some(Run(sentences, |sentences|, AttemptsFor(sentences, inputs)))
    ensures Agree(PlayWith(step, started, inputs), started, PlayKeys)
  {
    PlayRecords(step, started, Run(sentences, 0, []), inputs, |inputs|);
    assert sentences[0..|inputs|] == sentences;
    assert [] + AttemptsFor(sentences, inputs) == AttemptsFor(sentences, inputs);
  }

  /** From a freshly started run, answering every sentence once and moving
      on, then opening the results: each sentence is counted once, in order,
      and the session afterwards is `s` without the run. */
  lemma {:induction false} RunToResults(step: (Session, string) -> Session, started: Session, s: Session,
                                        sentences: seq<string>, name: Value, inputs: seq<string>)
    requires Advances(step)
    requires RunOf(started) == Some(Run(sentences, 0, []))
    requires DiktatNameKey in started && started[DiktatNameKey] == name
    requires Agree(started, s, RunKeys)
    requires |inputs| == |sentences|
    ensures Train(PlayWith(step, started, inputs)) == Redirect(ToResults)
    ensures var r := Results(PlayWith(step, started, inputs));
            && r.response.ResultsView?
            && r.response.summary.attempts == AttemptsFor(sentences, inputs)
            && r.response.summary.totalSentences == |sentences|
            && r.response.summary.diktatName == name
            && r.session == s - RunKeys
  {
    var played := PlayWith(step, started, inputs);
    var log := AttemptsFor(sentences, inputs);
    PlayFromStart(step, started, sentences, inputs);
    assert DiktatNameKey !in PlayKeys;
    assert DiktatNameKey in played && played[DiktatNameKey] == name;
    AgreeWiden(played, started, PlayKeys, RunKeys);
    AgreeTrans(played, started, s, RunKeys);
    FinishedRun(played, s, sentences, log, name);
  }

  /** Once every sentence is passed, training leads to the results, which
      report the recorded attempts and leave `s` without the run. */
  lemma FinishedRun(played: Session, s: Session, sentences: seq<string>, log: seq<Attempt>, name: Value)
    requires RunOf(played) == Some(Run(sentences, |sentences|, log))
    requires DiktatNameKey in played && played[DiktatNameKey] == name
    requires Agree(played, s, RunKeys)
    ensures Train(played) == Redirect(ToResults)
    ensures var r := Results(played);
            && r.response.ResultsView?
            && r.response.summary.attempts == log
            && r.response.summary.totalSentences == |log|
            && r.response.summary.diktatName == name
            && r.session == s - RunKeys
  {
    AgreeMinus(played, s, RunKeys);
  }

  /** A whole dictation: starting it, answering every sentence once (one
      input per sentence) and moving on, then opening the results. The results count each sentence
      once, in order, under the dictation's display name, and the session
      afterwards is the session before the start minus the run. */
  lemma FullDictation(s: Session, diktat: string, folder: Folder, inputs: seq<string>)
    requires Offered(diktat, folder.listing)
    ensures var d := Diktat.ParseDiktat(folder.read(diktat));
            var played := Play(StartDiktat(s, Some(diktat), folder.listing, folder.read).session, inputs);
            |inputs| == |d.sentences| ==>
            && Train(played) == Redirect(ToResults)
            && Results(played).response.ResultsView?
            && Results(played).response.summary.attempts == AttemptsFor(d.sentences, inputs)
            && Results(played).response.summary.totalSentences == |d.sentences|
            && Results(played).response.summary.diktatName == Str(DisplayName(diktat, d.metadata))
            && Results(played).session == s - RunKeys
  {
    var d := Diktat.ParseDiktat(folder.read(diktat));
    if |inputs| == |d.sentences| {
      var started := StartDiktat(s, Some(diktat), folder.listing, folder.read).session;
      assert Agree(started, s, RunKeys);
      CheckThenNextAdvancesEverywhere();
      RunToResults(CheckThenNext, started, s, d.sentences, Str(DisplayName(diktat, d.metadata)), inputs);
    }
  }

  /** A dictation without sentences goes straight to an empty results page. */
  lemma EmptyDictation(s: Session, diktat: string, folder: Folder)
    requires Offered(diktat, folder.listing)
    requires Diktat.ParseDiktat(folder.read(diktat)).sentences == []
    ensures var started := StartDiktat(s, Some(diktat), folder.listing, folder.read).session;
            && Train(started) == Redirect(ToResults)
            && Results(started).response.ResultsView?
            && Results(started).response.summary.totalSentences == 0
            && Results(started).response.summary.totalWords == 0
  {
  }

  /** After the results page the run is gone: training and the results
      page both send the user back to the index. */
  lemma ResultsEndRun(s: Session)
    requires AttemptsKey in s && s[AttemptsKey].AttemptLog?
    ensures Train(Results(s).session) == Redirect(ToIndex)
    ensures Results(Results(s).session) == Step(Results(s).session, Redirect(ToIndex))
  {
  }
}
