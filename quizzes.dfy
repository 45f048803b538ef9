/** Quiz results, the certificate rule and the glossary search
    (src/lib/quizzes.ts). The quiz list and the glossary that the source
    loads from its JSON data files are parameters. */
module Quizzes {
  import opened Types
  import opened Arrays
  import opened Percent
  import opened Text

  // ---------------------------------------------------------------- results

  /** `getQuizResult`: the first stored result for the quiz, if any. */
  function GetQuizResult(quizId: string, progress: UserProgress): (r: Option<QuizResult>)
    ensures r.None? <==> forall k :: 0 <= k < |progress.completedQuizzes| ==> progress.completedQuizzes[k].quizId != quizId
    ensures r.Some? ==>
      exists i :: 0 <= i < |progress.completedQuizzes| && progress.completedQuizzes[i] == r.value &&
        r.value.quizId == quizId &&
        forall k :: 0 <= k < i ==> progress.completedQuizzes[k].quizId != quizId
  {
    var i := IndiceQuiz(progress.completedQuizzes, quizId);
    if i < 0 then None else Some(progress.completedQuizzes[i])
  }

  /** Position of the first result for the quiz (`findIndex` by `quizId`), -1 when absent. */
  function IndiceQuiz(results: seq<QuizResult>, quizId: string): (i: int)
    ensures -1 <= i < |results|
    ensures 0 <= i ==> results[i].quizId == quizId && forall k :: 0 <= k < i ==> results[k].quizId != quizId
    ensures i == -1 <==> forall k :: 0 <= k < |results| ==> results[k].quizId != quizId
  {
    FindIndex(results, (q: QuizResult) => q.quizId == quizId)
  }

  /** Sum of the stored percentages. */
  function SomaPercentuais(results: seq<QuizResult>): int
  {
    if results == [] then 0 else results[0].percentual + SomaPercentuais(results[1..])
  }

  /** `calcularNotaMedia`: the rounded mean percentage, 0 with no results. */
  function CalcularNotaMedia(progress: UserProgress): (r: int)
    ensures progress.completedQuizzes == [] ==> r == 0
  {
    var qs := progress.completedQuizzes;
    if |qs| == 0 then 0 else RoundDiv(SomaPercentuais(qs), |qs|)
  }

  /** Bounds on every percentage bound their sum. */
  lemma {:induction false} SomaPercentuaisLimites(results: seq<QuizResult>, lo: int, hi: int)
    requires forall k :: 0 <= k < |results| ==> lo <= results[k].percentual <= hi
    ensures lo * |results| <= SomaPercentuais(results) <= hi * |results|
  {
    if results != [] {
      SomaPercentuaisLimites(results[1..], lo, hi);
    }
  }

  /** The mean lies between the lowest and the highest stored percentage. */
  lemma NotaMediaEntreExtremos(progress: UserProgress, lo: int, hi: int)
    requires progress.completedQuizzes != []
    requires forall k :: 0 <= k < |progress.completedQuizzes| ==> lo <= progress.completedQuizzes[k].percentual <= hi
    ensures lo <= CalcularNotaMedia(progress) <= hi
  {
    var qs := progress.completedQuizzes;
    SomaPercentuaisLimites(qs, lo, hi);
    RoundDivBetween(SomaPercentuais(qs), |qs|, lo, hi);
  }

  /** `getTotalQuizzesCompletos`: the number of stored results, 0 exactly
      when there is none. */
  function GetTotalQuizzesCompletos(progress: UserProgress): (n: nat)
    ensures n == 0 <==> progress.completedQuizzes == []
  {
    |progress.completedQuizzes|
  }

  /** `isQuizCompleto`: some stored result belongs to the module. */
  function IsQuizCompleto(moduloId: string, progress: UserProgress): (b: bool)
    ensures b <==> exists k :: 0 <= k < |progress.completedQuizzes| && progress.completedQuizzes[k].moduloId == moduloId
  {
    exists q :: q in progress.completedQuizzes && q.moduloId == moduloId
  }

  /** `verificarResposta`: the chosen option is the right one. */
  function VerificarResposta(questao: Questao, respostaIndex: int): (b: bool)
    ensures b <==> respostaIndex == questao.respostaCorreta
  {
    questao.respostaCorreta == respostaIndex
  }

  /** A well-formed question accepts exactly one of its four options. */
  lemma UmaOpcaoCerta(questao: Questao)
    requires QuestaoBemFormada(questao)
    ensures 0 <= questao.respostaCorreta < |questao.opcoes| && VerificarResposta(questao, questao.respostaCorreta)
    ensures forall i :: VerificarResposta(questao, i) ==> i == questao.respostaCorreta
  {
  }

  // --------------------------------------------------------------- glossary

  /** The search text occurs in the lower-cased term, abbreviation (when there
      is a non-empty one) or definition. */
  ghost predicate ContemBusca(t: TermoGlossario, buscaLower: string)
  {
    Contains(ToLower(t.termo), buscaLower) ||
    (t.sigla.Some? && t.sigla.value != "" && Contains(ToLower(t.sigla.value), buscaLower)) ||
    Contains(ToLower(t.definicao), buscaLower)
  }

  /** The predicate of the `filter` in `filtrarGlossario`. */
  function Corresponde(t: TermoGlossario, buscaLower: string): (b: bool)
    ensures b <==> ContemBusca(t, buscaLower)
  {
    Includes(ToLower(t.termo), buscaLower) ||
    (t.sigla.Some? && t.sigla.value != "" && Includes(ToLower(t.sigla.value), buscaLower)) ||
    Includes(ToLower(t.definicao), buscaLower)
  }

  /** `filtrarGlossario`: a blank query keeps the whole glossary; otherwise
      the terms matching the lower-cased (untrimmed) query, in their order. */
  function FiltrarGlossario(termos: seq<TermoGlossario>, busca: string): (r: seq<TermoGlossario>)
    ensures Trim(busca) == [] ==> r == termos
    ensures Trim(busca) != [] ==>
      (forall t :: t in r ==> t in termos && ContemBusca(t, ToLower(busca))) &&
      (forall k :: 0 <= k < |termos| && ContemBusca(termos[k], ToLower(busca)) ==> termos[k] in r)
    ensures Trim(busca) != [] ==>
      forall t :: multiset(r)[t] == if ContemBusca(t, ToLower(busca)) then multiset(termos)[t] else 0
    ensures IsSubsequence(r, termos)
  {
    if Trim(busca) == [] then
      SubsequenceRefl(termos);
      termos
    else
      var buscaLower := ToLower(busca);
      FilterIsSubsequence(termos, (t: TermoGlossario) => Corresponde(t, buscaLower));
      Filter(termos, (t: TermoGlossario) => Corresponde(t, buscaLower))
  }

  lemma {:induction false} SubsequenceRefl<T>(s: seq<T>)
    ensures IsSubsequence(s, s)
  {
    if s != [] {
      SubsequenceRefl(s[1..]);
    }
  }

  /** `getTermosPorModulo`: the terms of one module, in glossary order. */
  function GetTermosPorModulo(termos: seq<TermoGlossario>, moduloId: string): (r: seq<TermoGlossario>)
    ensures forall t :: t in r ==> t in termos && t.moduloId == moduloId
    ensures forall k :: 0 <= k < |termos| && termos[k].moduloId == moduloId ==> termos[k] in r
    ensures forall t :: multiset(r)[t] == if t.moduloId == moduloId then multiset(termos)[t] else 0
    ensures IsSubsequence(r, termos)
  {
    FilterIsSubsequence(termos, (t: TermoGlossario) => t.moduloId == moduloId);
    Filter(termos, (t: TermoGlossario) => t.moduloId == moduloId)
  }

  // ------------------------------------------------------------ certificate

  /** The fixed lesson total the certificate rule compares against. */
  const TotalLicoesCertificado: nat := 20

  datatype CertificadoRequirements = CertificadoRequirements(
    licoesConcluidas: int,
    totalLicoes: int,
    quizzesConcluidos: int,
    totalQuizzes: int,
    notaMedia: int,
    podeEmitir: bool)

  /** `verificarRequisitosCertificado`: enough completed lessons (against the
      fixed total of 20) and at least as many quiz results as quizzes. */
  function VerificarRequisitosCertificado(progress: UserProgress, quizzes: seq<Quiz>): (r: CertificadoRequirements)
    ensures r.podeEmitir <==> r.licoesConcluidas >= r.totalLicoes && r.quizzesConcluidos >= r.totalQuizzes
    ensures r.licoesConcluidas == |progress.completedLessons| && r.totalLicoes == 20
    ensures r.quizzesConcluidos == |progress.completedQuizzes| && r.totalQuizzes == |quizzes|
    ensures r.notaMedia == CalcularNotaMedia(progress)
  {
    var completedLessons := progress.completedLessons;
    var completedQuizzes := progress.completedQuizzes;
    CertificadoRequirements(
      licoesConcluidas := |completedLessons|,
      totalLicoes := TotalLicoesCertificado,
      quizzesConcluidos := |completedQuizzes|,
      totalQuizzes := |quizzes|,
      notaMedia := CalcularNotaMedia(progress),
      podeEmitir := |completedLessons| >= TotalLicoesCertificado && |completedQuizzes| >= |quizzes|)
  }

  /** Eligibility looks only at how many lessons and results there are: the
      scores, and so the mean, never change it. */
  lemma NotaNaoAfetaEmissao(p1: UserProgress, p2: UserProgress, quizzes: seq<Quiz>)
    requires |p1.completedLessons| == |p2.completedLessons| && |p1.completedQuizzes| == |p2.completedQuizzes|
    ensures VerificarRequisitosCertificado(p1, quizzes).podeEmitir == VerificarRequisitosCertificado(p2, quizzes).podeEmitir
  {
  }

  /** A record with every score at 0 can be eligible. */
  lemma EmissaoComNotaZero(quizzes: seq<Quiz>)
    ensures var results := seq(|quizzes|, k requires 0 <= k < |quizzes| => QuizResult(quizzes[k].id, quizzes[k].moduloId, 0, 1, 0, ""));
      var p := UserProgress([], seq(20, k => "lic"), results, None, None, None, None, 0, 0);
      VerificarRequisitosCertificado(p, quizzes).podeEmitir && (quizzes != [] ==> CalcularNotaMedia(p) == 0)
  {
    var results := seq(|quizzes|, k requires 0 <= k < |quizzes| => QuizResult(quizzes[k].id, quizzes[k].moduloId, 0, 1, 0, ""));
    var p := UserProgress([], seq(20, k => "lic"), results, None, None, None, None, 0, 0);
    if quizzes != [] {
      NotaMediaEntreExtremos(p, 0, 0);
    }
  }

  // ------------------------------------------------------------------ stats

  datatype QuizStats = QuizStats(
    totalQuizzes: int,
    quizzesCompletos: int,
    notaMedia: int,
    totalQuestoes: int,
    questoesAcertadas: int)

  function SomaAcertos(results: seq<QuizResult>): int
  {
    if results == [] then 0 else results[0].acertos + SomaAcertos(results[1..])
  }

  function SomaTotais(results: seq<QuizResult>): int
  {
    if results == [] then 0 else results[0].total + SomaTotais(results[1..])
  }

  /** `calcularQuizStats`. */
  function CalcularQuizStats(progress: UserProgress, quizzes: seq<Quiz>): (s: QuizStats)
    ensures s.totalQuizzes == |quizzes| && s.quizzesCompletos == GetTotalQuizzesCompletos(progress)
    ensures s.notaMedia == CalcularNotaMedia(progress)
    ensures s.questoesAcertadas == SomaAcertos(progress.completedQuizzes)
    ensures s.totalQuestoes == SomaTotais(progress.completedQuizzes)
  {
    var qs := progress.completedQuizzes;
    QuizStats(
      totalQuizzes := |quizzes|,
      quizzesCompletos := |qs|,
      notaMedia := CalcularNotaMedia(progress),
      totalQuestoes := SomaTotais(qs),
      questoesAcertadas := SomaAcertos(qs))
  }

  /** When no result claims more right answers than questions, neither do the
      totals, and both are non-negative for non-negative results. */
  lemma {:induction false} AcertosNaoExcedemTotal(results: seq<QuizResult>)
    requires forall k :: 0 <= k < |results| ==> 0 <= results[k].acertos <= results[k].total
    ensures 0 <= SomaAcertos(results) <= SomaTotais(results)
  {
    if results != [] {
      AcertosNaoExcedemTotal(results[1..]);
    }
  }
}
