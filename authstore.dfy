/** The progress actions of the authentication store
    (src/stores/authStore.ts). The pure part describes each action as a
    transition of the progress record; the `Store` class holds the signed-in
    user and its methods perform the same updates, one `set` at a time, as the
    store does. The clock is a parameter (`now`); the simulated user database
    in browser storage, the network login path and id generation are not part
    of this model. */
module AuthStore {
  import opened Types
  import opened Arrays
  import opened Percent
  import opened Text
  import Quizzes

  // ------------------------------------------------------ partial updates

  /** The progress of a new user: empty lists, no time, no points and none
      of the optional fields. */
  const InitialProgress: UserProgress := UserProgress([], [], [], None, None, None, None, 0, 0)

  /** A `Partial<UserProgress>`: `Some(v)` for each field that is present. */
  datatype ProgressUpdate = ProgressUpdate(
    completedModules: Option<seq<string>>,
    completedLessons: Option<seq<string>>,
    completedQuizzes: Option<seq<QuizResult>>,
    currentModuleId: Option<string>,
    currentLessonId: Option<string>,
    lastAccessAt: Option<string>,
    certificateEarnedAt: Option<string>,
    tempoEstudo: Option<int>,
    xp: Option<int>)

  /** The update with no field present. */
  const NoProgressChange: ProgressUpdate := ProgressUpdate(None, None, None, None, None, None, None, None, None)

  /** `{ ...p, ...u }` on one field. */
  function Override<T>(current: T, update: Option<T>): (r: T)
    ensures update.Some? ==> r == update.value
    ensures update.None? ==> r == current
  {
    if update.Some? then update.value else current
  }

  /** `{ ...p, ...u }` on an optional field: a present value replaces it. */
  function OverrideOptional<T>(current: Option<T>, update: Option<T>): (r: Option<T>)
    ensures update.Some? ==> r == update
    ensures update.None? ==> r == current
  {
    if update.Some? then update else current
  }

  /** The shallow merge `{ ...p, ...u }`: each field present in the update
      replaces the record's, every absent one is kept. */
  function MergeProgress(p: UserProgress, u: ProgressUpdate): (r: UserProgress)
    ensures r.completedModules == if u.completedModules.Some? then u.completedModules.value else p.completedModules
    ensures r.completedLessons == if u.completedLessons.Some? then u.completedLessons.value else p.completedLessons
    ensures r.completedQuizzes == if u.completedQuizzes.Some? then u.completedQuizzes.value else p.completedQuizzes
    ensures r.currentModuleId == if u.currentModuleId.Some? then u.currentModuleId else p.currentModuleId
    ensures r.currentLessonId == if u.currentLessonId.Some? then u.currentLessonId else p.currentLessonId
    ensures r.lastAccessAt == if u.lastAccessAt.Some? then u.lastAccessAt else p.lastAccessAt
    ensures r.certificateEarnedAt == if u.certificateEarnedAt.Some? then u.certificateEarnedAt else p.certificateEarnedAt
    ensures r.tempoEstudo == if u.tempoEstudo.Some? then u.tempoEstudo.value else p.tempoEstudo
    ensures r.xp == if u.xp.Some? then u.xp.value else p.xp
  {
    UserProgress(
      Override(p.completedModules, u.completedModules),
      Override(p.completedLessons, u.completedLessons),
      Override(p.completedQuizzes, u.completedQuizzes),
      OverrideOptional(p.currentModuleId, u.currentModuleId),
      OverrideOptional(p.currentLessonId, u.currentLessonId),
      OverrideOptional(p.lastAccessAt, u.lastAccessAt),
      OverrideOptional(p.certificateEarnedAt, u.certificateEarnedAt),
      Override(p.tempoEstudo, u.tempoEstudo),
      Override(p.xp, u.xp))
  }

  /** Merging the empty update changes nothing. */
  lemma MergeNothing(p: UserProgress)
    ensures MergeProgress(p, NoProgressChange) == p
  {
  }

  /** Two successive merges are one merge of the combined update, the later
      value winning on each field. */
  lemma MergeTwice(p: UserProgress, u1: ProgressUpdate, u2: ProgressUpdate)
    ensures MergeProgress(MergeProgress(p, u1), u2) == MergeProgress(p, Combine(u1, u2))
  {
  }

  /** Merging the same update again changes nothing more. */
  lemma MergeIdempotent(p: UserProgress, u: ProgressUpdate)
    ensures MergeProgress(MergeProgress(p, u), u) == MergeProgress(p, u)
  {
    MergeTwice(p, u, u);
    assert Combine(u, u) == u;
  }

  /** `{ ...u1, ...u2 }`: a field present in the later update wins, one
      absent from it comes from the earlier. */
  function Combine(u1: ProgressUpdate, u2: ProgressUpdate): (u: ProgressUpdate)
    ensures u.completedModules == if u2.completedModules.Some? then u2.completedModules else u1.completedModules
    ensures u.completedLessons == if u2.completedLessons.Some? then u2.completedLessons else u1.completedLessons
    ensures u.completedQuizzes == if u2.completedQuizzes.Some? then u2.completedQuizzes else u1.completedQuizzes
    ensures u.currentModuleId == if u2.currentModuleId.Some? then u2.currentModuleId else u1.currentModuleId
    ensures u.currentLessonId == if u2.currentLessonId.Some? then u2.currentLessonId else u1.currentLessonId
    ensures u.lastAccessAt == if u2.lastAccessAt.Some? then u2.lastAccessAt else u1.lastAccessAt
    ensures u.certificateEarnedAt == if u2.certificateEarnedAt.Some? then u2.certificateEarnedAt else u1.certificateEarnedAt
    ensures u.tempoEstudo == if u2.tempoEstudo.Some? then u2.tempoEstudo else u1.tempoEstudo
    ensures u.xp == if u2.xp.Some? then u2.xp else u1.xp
  {
    ProgressUpdate(
      OverrideOptional(u1.completedModules, u2.completedModules),
      OverrideOptional(u1.completedLessons, u2.completedLessons),
      OverrideOptional(u1.completedQuizzes, u2.completedQuizzes),
      OverrideOptional(u1.currentModuleId, u2.currentModuleId),
      OverrideOptional(u1.currentLessonId, u2.currentLessonId),
      OverrideOptional(u1.lastAccessAt, u2.lastAccessAt),
      OverrideOptional(u1.certificateEarnedAt, u2.certificateEarnedAt),
      OverrideOptional(u1.tempoEstudo, u2.tempoEstudo),
      OverrideOptional(u1.xp, u2.xp))
  }

  /** A `Partial<User>`. */
  datatype UserUpdate = UserUpdate(
    id: Option<string>,
    name: Option<string>,
    email: Option<string>,
    avatar: Option<string>,
    role: Option<Role>,
    department: Option<string>,
    createdAt: Option<string>,
    progress: Option<UserProgress>)

  const NoUserChange: UserUpdate := UserUpdate(None, None, None, None, None, None, None, None)

  /** The merge `{ ...user, ...updates }` of `updateUser`. */
  function MergeUser(user: User, u: UserUpdate): (r: User)
    ensures u == NoUserChange ==> r == user
    ensures u == NoUserChange.(progress := u.progress) ==>
      r == user.(progress := Override(user.progress, u.progress))
    ensures r.id == (if u.id.Some? then u.id.value else user.id)
    ensures r.name == (if u.name.Some? then u.name.value else user.name)
    ensures r.email == (if u.email.Some? then u.email.value else user.email)
    ensures r.avatar == (if u.avatar.Some? then u.avatar else user.avatar)
    ensures r.role == (if u.role.Some? then u.role.value else user.role)
    ensures r.department == (if u.department.Some? then u.department else user.department)
    ensures r.createdAt == (if u.createdAt.Some? then u.createdAt.value else user.createdAt)
    ensures r.progress == (if u.progress.Some? then u.progress.value else user.progress)
  {
    User(
      Override(user.id, u.id),
      Override(user.name, u.name),
      Override(user.email, u.email),
      OverrideOptional(user.avatar, u.avatar),
      Override(user.role, u.role),
      OverrideOptional(user.department, u.department),
      Override(user.createdAt, u.createdAt),
      Override(user.progress, u.progress))
  }

  // ------------------------------------------------ the actions, as values

  /** `addTempoEstudo`: the minutes are added to the study time. */
  function AddStudyTime(p: UserProgress, minutos: int): (r: UserProgress)
    ensures r.tempoEstudo == p.tempoEstudo + minutos
    ensures r.(tempoEstudo := p.tempoEstudo) == p
  {
    MergeProgress(p, NoProgressChange.(tempoEstudo := Some(p.tempoEstudo + minutos)))
  }

  /** `completeLesson`: a new lesson id is appended once and earns 10 points,
      and a positive duration is added to the study time; a lesson already
      in the list changes nothing. */
  function CompleteLessonProgress(p: UserProgress, lessonId: string, duracao: int): (r: UserProgress)
    ensures lessonId in p.completedLessons ==> r == p
    ensures lessonId !in p.completedLessons ==>
      r.completedLessons == p.completedLessons + [lessonId] &&
      r.xp == p.xp + 10 &&
      r.tempoEstudo == p.tempoEstudo + (if duracao > 0 then duracao else 0) &&
      r.(completedLessons := p.completedLessons, xp := p.xp, tempoEstudo := p.tempoEstudo) == p
  {
    if lessonId in p.completedLessons then p
    else
      var q := MergeProgress(p, NoProgressChange.(completedLessons := Some(p.completedLessons + [lessonId]), xp := Some(p.xp + 10)));
      if duracao > 0 then AddStudyTime(q, duracao) else q
  }

  /** `completeModule`: a new module id is appended once and earns 50
      points, whether or not its lessons are done. */
  function CompleteModuleProgress(p: UserProgress, moduleId: string): (r: UserProgress)
    ensures moduleId in p.completedModules ==> r == p
    ensures moduleId !in p.completedModules ==>
      r.completedModules == p.completedModules + [moduleId] && r.xp == p.xp + 50 &&
      r.(completedModules := p.completedModules, xp := p.xp) == p
  {
    if moduleId in p.completedModules then p
    else MergeProgress(p, NoProgressChange.(completedModules := Some(p.completedModules + [moduleId]), xp := Some(p.xp + 50)))
  }

  /** The quiz-result list after `completeQuiz`: the first entry with the
      same `quizId` is replaced in place, otherwise the result is appended. */
  function UpsertResult(results: seq<QuizResult>, result: QuizResult): (r: seq<QuizResult>)
    ensures Quizzes.IndiceQuiz(results, result.quizId) >= 0 ==>
      var i := Quizzes.IndiceQuiz(results, result.quizId);
      |r| == |results| && r[i] == result &&
      forall k :: 0 <= k < |results| && k != i ==> r[k] == results[k]
    ensures Quizzes.IndiceQuiz(results, result.quizId) < 0 ==>
      r == results + [result]
  {
    var i := Quizzes.IndiceQuiz(results, result.quizId);
    if i >= 0 then results[i := result] else results + [result]
  }

  /** `completeQuiz` on the progress record: only the result list changes. */
  function CompleteQuizProgress(p: UserProgress, result: QuizResult): (r: UserProgress)
    ensures r.completedQuizzes == UpsertResult(p.completedQuizzes, result)
    ensures r.(completedQuizzes := p.completedQuizzes) == p
  {
    MergeProgress(p, NoProgressChange.(completedQuizzes := Some(UpsertResult(p.completedQuizzes, result))))
  }

  /** `completeQuiz` raises the completed-quiz count by one for a new quiz
      and leaves it alone for a retake. */
  lemma QuizCountAfterComplete(p: UserProgress, result: QuizResult)
    ensures Quizzes.GetTotalQuizzesCompletos(CompleteQuizProgress(p, result)) ==
      Quizzes.GetTotalQuizzesCompletos(p) + (if Quizzes.IndiceQuiz(p.completedQuizzes, result.quizId) < 0 then 1 else 0)
  {
  }

  /** No two results share a `quizId`. */
  predicate UniqueQuizIds(results: seq<QuizResult>)
  {
    forall i, j :: 0 <= i < j < |results| ==> results[i].quizId != results[j].quizId
  }

  /** After the upsert, looking the quiz up finds the new result. */
  lemma UpsertThenLookup(p: UserProgress, result: QuizResult)
    ensures Quizzes.GetQuizResult(result.quizId, CompleteQuizProgress(p, result)) == Some(result)
  {
    var qs := p.completedQuizzes;
    var r := UpsertResult(qs, result);
    var i := Quizzes.IndiceQuiz(qs, result.quizId);
    if i >= 0 {
      assert forall k :: 0 <= k < i ==> r[k] == qs[k];
      assert Quizzes.IndiceQuiz(r, result.quizId) == i;
    } else {
      IndexAfterAppend(qs, result);
    }
  }

  /** A result appended to a list without its quiz is found at the end. */
  lemma {:induction false} IndexAfterAppend(results: seq<QuizResult>, result: QuizResult)
    requires Quizzes.IndiceQuiz(results, result.quizId) < 0
    ensures Quizzes.IndiceQuiz(results + [result], result.quizId) == |results|
  {
    if results != [] {
      assert (results + [result])[1..] == results[1..] + [result];
      IndexAfterAppend(results[1..], result);
    }
  }

  /** The upsert keeps at most one entry per quiz. */
  lemma UpsertKeepsIdsUnique(results: seq<QuizResult>, result: QuizResult)
    requires UniqueQuizIds(results)
    ensures UniqueQuizIds(UpsertResult(results, result))
  {
    var r := UpsertResult(results, result);
    var i := Quizzes.IndiceQuiz(results, result.quizId);
    if i >= 0 {
      assert forall k :: 0 <= k < |r| ==> r[k].quizId == results[k].quizId;
    } else {
      assert forall k :: 0 <= k < |results| ==> r[k] == results[k];
    }
  }

  /** Completing the same quiz twice with the same result is completing it once. */
  lemma UpsertIdempotent(results: seq<QuizResult>, result: QuizResult)
    ensures UpsertResult(UpsertResult(results, result), result) == UpsertResult(results, result)
  {
    var r := UpsertResult(results, result);
    var i := Quizzes.IndiceQuiz(results, result.quizId);
    if i >= 0 {
      assert forall k :: 0 <= k < i ==> r[k] == results[k];
      assert Quizzes.IndiceQuiz(r, result.quizId) == i;
    } else {
      IndexAfterAppend(results, result);
    }
  }

  /** `earnCertificate`: the timestamp is set to now, with no eligibility check. */
  function EarnCertificateProgress(p: UserProgress, now: string): (r: UserProgress)
    ensures r.certificateEarnedAt == Some(now)
    ensures r.(certificateEarnedAt := p.certificateEarnedAt) == p
  {
    MergeProgress(p, NoProgressChange.(certificateEarnedAt := Some(now)))
  }

  /** A second `earnCertificate` overwrites the first timestamp. */
  lemma EarnCertificateOverwrites(p: UserProgress, t1: string, t2: string)
    ensures EarnCertificateProgress(EarnCertificateProgress(p, t1), t2) == EarnCertificateProgress(p, t2)
  {
  }

  /** `setCurrentPosition`: current module, lesson and last access time. */
  function SetPositionProgress(p: UserProgress, moduleId: string, lessonId: string, now: string): (r: UserProgress)
    ensures r.currentModuleId == Some(moduleId) && r.currentLessonId == Some(lessonId) && r.lastAccessAt == Some(now)
    ensures r.(currentModuleId := p.currentModuleId, currentLessonId := p.currentLessonId, lastAccessAt := p.lastAccessAt) == p
  {
    MergeProgress(p, NoProgressChange.(currentModuleId := Some(moduleId), currentLessonId := Some(lessonId), lastAccessAt := Some(now)))
  }

  /** With every lesson done and one quiz result missing, the certificate is
      not yet available; recording a result for a quiz not yet in the list
      makes it available, while retaking a recorded quiz changes nothing. */
  lemma CertificadoAposUltimoQuiz(p: UserProgress, quizzes: seq<Quiz>, result: QuizResult)
    requires |p.completedLessons| >= Quizzes.TotalLicoesCertificado
    requires |p.completedQuizzes| + 1 == |quizzes|
    ensures !Quizzes.VerificarRequisitosCertificado(p, quizzes).podeEmitir
    ensures Quizzes.IndiceQuiz(p.completedQuizzes, result.quizId) < 0 <==>
      Quizzes.VerificarRequisitosCertificado(CompleteQuizProgress(p, result), quizzes).podeEmitir
  {
  }

  /** Completing the same lesson or module twice is completing it once. */
  lemma CompleteTwiceIsOnce(p: UserProgress, lessonId: string, moduleId: string, duracao: int)
    ensures CompleteLessonProgress(CompleteLessonProgress(p, lessonId, duracao), lessonId, duracao) == CompleteLessonProgress(p, lessonId, duracao)
    ensures CompleteModuleProgress(CompleteModuleProgress(p, moduleId), moduleId) == CompleteModuleProgress(p, moduleId)
  {
  }

  /** The completion lists only grow, with no repeated id when there was none,
      and the points and study time never go down. */
  predicate Advances(p: UserProgress, q: UserProgress)
  {
    p.completedLessons <= q.completedLessons && p.completedModules <= q.completedModules &&
    p.xp <= q.xp && p.tempoEstudo <= q.tempoEstudo
  }

  lemma CompletionAdvances(p: UserProgress, lessonId: string, moduleId: string, duracao: int, result: QuizResult)
    ensures Advances(p, CompleteLessonProgress(p, lessonId, duracao))
    ensures Advances(p, CompleteModuleProgress(p, moduleId))
    ensures Advances(p, CompleteQuizProgress(p, result))
    ensures Distinct(p.completedLessons) ==> Distinct(CompleteLessonProgress(p, lessonId, duracao).completedLessons)
    ensures Distinct(p.completedModules) ==> Distinct(CompleteModuleProgress(p, moduleId).completedModules)
  {
  }

  // ------------------------------------------------ obterProgressoModulo

  /** `s.split('-')[1]`: the text between the first and the second `-` (or the
      end), absent when `s` has no `-`. */
  function SecondSegment(s: string): (r: Option<string>)
    ensures r.None? <==> '-' !in s
    ensures r.Some? ==> '-' !in r.value
  {
    var i := IndexOf(s, '-');
    if i < 0 then None
    else
      var rest := s[i + 1..];
      var j := IndexOf(rest, '-');
      Some(if j < 0 then rest else rest[..j])
  }

  /** The segment rule on the shapes `a-b` and `a-b-c`. */
  lemma SecondSegmentOf(a: string, b: string, c: string)
    requires '-' !in a && '-' !in b
    ensures SecondSegment(a + "-" + b) == Some(b)
    ensures SecondSegment(a + "-" + b + "-" + c) == Some(b)
  {
    FirstDash(a, b);
    FirstDash(a, b + "-" + c);
    assert a + "-" + b + "-" + c == a + "-" + (b + "-" + c);
    FirstDash(b, c);
    assert (b + "-" + c)[..|b|] == b;
  }

  /** In `a-rest` with no `-` in `a`, the first `-` follows `a`. */
  lemma FirstDash(a: string, rest: string)
    requires '-' !in a
    ensures IndexOf(a + "-" + rest, '-') == |a|
    ensures (a + "-" + rest)[|a| + 1..] == rest
  {
    var s := a + "-" + rest;
    assert s[|a|] == '-';
    assert forall k :: 0 <= k < |a| ==> s[k] == a[k];
  }

  /** The lesson-id prefix of `obterProgressoModulo`; a module id without
      `-` interpolates `undefined`. */
  function LessonPrefix(moduleId: string): (r: string)
    ensures SecondSegment(moduleId).Some? ==> r == "lic-" + SecondSegment(moduleId).value
    ensures SecondSegment(moduleId).None? ==> r == "lic-undefined"
  {
    "lic-" + match SecondSegment(moduleId) case Some(x) => x case None => "undefined"
  }

  predicate StartsWith(s: string, prefix: string)
  {
    |prefix| <= |s| && s[..|prefix|] == prefix
  }

  /** How many ids of the list start with the prefix. */
  function CountWithPrefix(ids: seq<string>, prefix: string): (n: nat)
    ensures n <= |ids|
    ensures n == 0 <==> forall k :: 0 <= k < |ids| ==> !StartsWith(ids[k], prefix)
    ensures n == |ids| <==> forall k :: 0 <= k < |ids| ==> StartsWith(ids[k], prefix)
  {
    if ids == [] then 0
    else (if StartsWith(ids[0], prefix) then 1 else 0) + CountWithPrefix(ids[1..], prefix)
  }

  /** The count is the length of the `filter` of the ids by the prefix test,
      as the source computes it. */
  lemma {:induction false} CountIsFilter(ids: seq<string>, prefix: string, matches: string -> bool)
    requires forall id :: matches(id) <==> StartsWith(id, prefix)
    ensures CountWithPrefix(ids, prefix) == |Filter(ids, matches)|
  {
    if ids != [] {
      CountIsFilter(ids[1..], prefix, matches);
    }
  }

  /** `obterProgressoModulo`: 0 with no user or a zero total; otherwise the
      rounded share of completed ids carrying the module's lesson prefix.
      A negative total is rounded like `Math.round`, to floor(100k/t + 1/2). */
  function ModuleProgress(user: Option<User>, moduleId: string, totalLicoes: int): (r: int)
    ensures user.None? || totalLicoes == 0 ==> r == 0
    ensures user.Some? && totalLicoes > 0 ==>
      r == Percentual(CountWithPrefix(user.value.progress.completedLessons, LessonPrefix(moduleId)), totalLicoes)
    ensures user.Some? && totalLicoes < 0 ==>
      var k, d := CountWithPrefix(user.value.progress.completedLessons, LessonPrefix(moduleId)), -totalLicoes;
      2 * d * r <= d - 200 * k < 2 * d * r + 2 * d
  {
    if user.None? || totalLicoes == 0 then 0
    else
      var k := CountWithPrefix(user.value.progress.completedLessons, LessonPrefix(moduleId));
      // Math.round(k / t * 100) is floor(100k/t + 1/2) for either sign of t
      if totalLicoes > 0 then Percentual(k, totalLicoes) else RoundDiv(-100 * k, -totalLicoes)
  }

  /** With at most `totalLicoes` matching ids the figure is a percentage, and
      it is 100 when exactly `totalLicoes` ids match. */
  lemma ModuleProgressBounds(user: User, moduleId: string, totalLicoes: int)
    requires totalLicoes > 0
    requires CountWithPrefix(user.progress.completedLessons, LessonPrefix(moduleId)) <= totalLicoes
    ensures 0 <= ModuleProgress(Some(user), moduleId, totalLicoes) <= 100
    ensures CountWithPrefix(user.progress.completedLessons, LessonPrefix(moduleId)) == totalLicoes ==>
      ModuleProgress(Some(user), moduleId, totalLicoes) == 100
  {
    PercentualBounds(CountWithPrefix(user.progress.completedLessons, LessonPrefix(moduleId)), totalLicoes);
  }

  /** The prefix test also counts the lessons of a module whose number
      starts with the same digits: for `mod-1`, an id `lic-10-1` counts. */
  lemma PrefixAlsoMatchesLongerNumbers()
    ensures LessonPrefix("mod-1") == "lic-1"
    ensures StartsWith("lic-10-1", LessonPrefix("mod-1"))
  {
    SecondSegmentOf("mod", "1", "");
  }

  // ------------------------------------------------------------ rehydration

  /** The progress record as read back from storage, where any field may be
      missing: the same shape as a partial update. */
  type StoredProgress = ProgressUpdate

  /** `onRehydrateStorage`: `{ ...initialProgress, ...stored }` with the three
      lists and the study time defaulted. A present value is kept; a missing
      list is empty, a missing number 0 and a missing optional field absent. */
  function Rehydrate(s: StoredProgress): (p: UserProgress)
    ensures p.completedModules == (if s.completedModules.Some? then s.completedModules.value else [])
    ensures p.completedLessons == (if s.completedLessons.Some? then s.completedLessons.value else [])
    ensures p.completedQuizzes == (if s.completedQuizzes.Some? then s.completedQuizzes.value else [])
    ensures p.tempoEstudo == (if s.tempoEstudo.Some? then s.tempoEstudo.value else 0)
    ensures p.xp == (if s.xp.Some? then s.xp.value else 0)
    ensures p.currentModuleId == s.currentModuleId && p.currentLessonId == s.currentLessonId
    ensures p.lastAccessAt == s.lastAccessAt && p.certificateEarnedAt == s.certificateEarnedAt
  {
    var spread := MergeProgress(InitialProgress, s);
    spread.(
      completedModules := Override([], s.completedModules),
      completedLessons := Override([], s.completedLessons),
      completedQuizzes := Override([], s.completedQuizzes),
      tempoEstudo := Override(0, s.tempoEstudo))
  }

  /** What storage holds for a full progress record: every field present. */
  function Persisted(p: UserProgress): (s: StoredProgress)
  {
    ProgressUpdate(Some(p.completedModules), Some(p.completedLessons), Some(p.completedQuizzes),
      p.currentModuleId, p.currentLessonId, p.lastAccessAt, p.certificateEarnedAt,
      Some(p.tempoEstudo), Some(p.xp))
  }

  /** A complete record survives storing and rehydrating unchanged, and
      rehydrating an empty record gives the initial progress. */
  lemma RehydrateStored(p: UserProgress)
    ensures Rehydrate(Persisted(p)) == p
    ensures Rehydrate(NoProgressChange) == InitialProgress
  {
  }

  /** The stored form of a user; its progress may miss fields. */
  datatype StoredUser = StoredUser(
    id: string,
    name: string,
    email: string,
    avatar: Option<string>,
    role: Role,
    department: Option<string>,
    createdAt: string,
    progress: StoredProgress)

  function RehydrateUser(s: StoredUser): (u: User)
    ensures u.progress == Rehydrate(s.progress)
    ensures u.id == s.id && u.name == s.name && u.email == s.email && u.avatar == s.avatar
    ensures u.role == s.role && u.department == s.department && u.createdAt == s.createdAt
  {
    User(s.id, s.name, s.email, s.avatar, s.role, s.department, s.createdAt, Rehydrate(s.progress))
  }

  // -------------------------------------------------------------- the store

  /** The store state that the actions read and write. */
  class Store {
    var user: Option<User>
    var isAuthenticated: bool
    var error: Option<string>

    /** The initial state: nobody signed in. */
    constructor ()
      ensures user == None && !isAuthenticated && error == None
    {
      user := None;
      isAuthenticated := false;
      error := None;
    }

    /** The state restored from storage, progress defaults filled in. */
    constructor FromStorage(stored: Option<StoredUser>, authenticated: bool)
      ensures stored.None? ==> user == None
      ensures stored.Some? ==> user == Some(RehydrateUser(stored.value))
      ensures isAuthenticated == authenticated && error == None
    {
      user := if stored.Some? then Some(RehydrateUser(stored.value)) else None;
      isAuthenticated := authenticated;
      error := None;
    }

    /** `logout`. */
    method Logout()
      modifies this
      ensures user == None && !isAuthenticated && error == None
    {
      user := None;
      isAuthenticated := false;
      error := None;
    }

    /** `updateUser`: merges into the signed-in user; nothing without one. */
    method UpdateUser(updates: UserUpdate)
      modifies this
      ensures old(user).None? ==> user == None
      ensures old(user).Some? ==> user == Some(MergeUser(old(user).value, updates))
      ensures isAuthenticated == old(isAuthenticated) && error == old(error)
    {
      if user.None? {
        return;
      }
      user := Some(MergeUser(user.value, updates));
    }

    /** `updateProgress`: merges into the user's progress; every other field
        of the user stays. */
    method UpdateProgress(updates: ProgressUpdate)
      modifies this
      ensures old(user).None? ==> user == None
      ensures old(user).Some? ==> user == Some(old(user).value.(progress := MergeProgress(old(user).value.progress, updates)))
      ensures isAuthenticated == old(isAuthenticated) && error == old(error)
    {
      if user.None? {
        return;
      }
      UpdateUser(NoUserChange.(progress := Some(MergeProgress(user.value.progress, updates))));
    }

    /** `addTempoEstudo`. */
    method AddTempoEstudo(minutos: int)
      modifies this
      ensures old(user).None? ==> user == None
      ensures old(user).Some? ==> user == Some(old(user).value.(progress := AddStudyTime(old(user).value.progress, minutos)))
      ensures isAuthenticated == old(isAuthenticated) && error == old(error)
    {
      if user.None? {
        return;
      }
      UpdateProgress(NoProgressChange.(tempoEstudo := Some(user.value.progress.tempoEstudo + minutos)));
    }

    /** `completeLesson`: two successive updates, the lesson and points first,
        then the study time. */
    method CompleteLesson(lessonId: string, duracao: int)
      modifies this
      ensures old(user).None? ==> user == None
      ensures old(user).Some? ==> user == Some(old(user).value.(progress := CompleteLessonProgress(old(user).value.progress, lessonId, duracao)))
      ensures isAuthenticated == old(isAuthenticated) && error == old(error)
    {
      if user.None? {
        return;
      }
      var completedLessons := user.value.progress.completedLessons;
      if lessonId !in completedLessons {
        var currentXp := user.value.progress.xp;
        UpdateProgress(NoProgressChange.(completedLessons := Some(completedLessons + [lessonId]), xp := Some(currentXp + 10)));
        if duracao > 0 {
          AddTempoEstudo(duracao);
        }
      }
    }

    /** `completeModule`. */
    method CompleteModule(moduleId: string)
      modifies this
      ensures old(user).None? ==> user == None
      ensures old(user).Some? ==> user == Some(old(user).value.(progress := CompleteModuleProgress(old(user).value.progress, moduleId)))
      ensures isAuthenticated == old(isAuthenticated) && error == old(error)
    {
      if user.None? {
        return;
      }
      var completedModules := user.value.progress.completedModules;
      if moduleId !in completedModules {
        var currentXp := user.value.progress.xp;
        UpdateProgress(NoProgressChange.(completedModules := Some(completedModules + [moduleId]), xp := Some(currentXp + 50)));
      }
    }

    /** `completeQuiz`: replace the result with the same `quizId`, else append. */
    method CompleteQuiz(result: QuizResult)
      modifies this
      ensures old(user).None? ==> user == None
      ensures old(user).Some? ==> user == Some(old(user).value.(progress := CompleteQuizProgress(old(user).value.progress, result)))
      ensures isAuthenticated == old(isAuthenticated) && error == old(error)
    {
      if user.None? {
        return;
      }
      var completedQuizzes := user.value.progress.completedQuizzes;
      var existingIndex := Quizzes.IndiceQuiz(completedQuizzes, result.quizId);
      var updatedQuizzes := if existingIndex >= 0 then completedQuizzes[existingIndex := result] else completedQuizzes + [result];
      UpdateProgress(NoProgressChange.(completedQuizzes := Some(updatedQuizzes)));
    }

    /** `earnCertificate`, with the current time as a parameter. */
    method EarnCertificate(now: string)
      modifies this
      ensures old(user).None? ==> user == None
      ensures old(user).Some? ==> user == Some(old(user).value.(progress := EarnCertificateProgress(old(user).value.progress, now)))
      ensures isAuthenticated == old(isAuthenticated) && error == old(error)
    {
      UpdateProgress(NoProgressChange.(certificateEarnedAt := Some(now)));
    }

    /** `setCurrentPosition`, with the current time as a parameter. */
    method SetCurrentPosition(moduleId: string, lessonId: string, now: string)
      modifies this
      ensures old(user).None? ==> user == None
      ensures old(user).Some? ==> user == Some(old(user).value.(progress := SetPositionProgress(old(user).value.progress, moduleId, lessonId, now)))
      ensures isAuthenticated == old(isAuthenticated) && error == old(error)
    {
      UpdateProgress(NoProgressChange.(currentModuleId := Some(moduleId), currentLessonId := Some(lessonId), lastAccessAt := Some(now)));
    }

    /** `resetProgress`: back to the initial progress, every other user field kept. */
    method ResetProgress()
      modifies this
      ensures old(user).None? ==> user == None
      ensures old(user).Some? ==> user == Some(old(user).value.(progress := InitialProgress))
      ensures isAuthenticated == old(isAuthenticated) && error == old(error)
    {
      if user.None? {
        return;
      }
      UpdateUser(NoUserChange.(progress := Some(InitialProgress)));
    }
  }
}
