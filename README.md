# Progress tracking of the Unimed training platform, in Dafny

The platform is a Next.js e-learning front-end. Its training catalog is a
list of modules (`Modulo`), each holding ordered lessons (`Licao`), plus one
quiz per module and a glossary. Each user carries a progress record
(`UserProgress`). It lists completed modules, lessons and quiz results,
with study minutes, experience points and the certificate timestamp.

This project models the logic that reads and updates that record:

- `Modulos` covers the gating rules. A module is locked until the module
  before it is completed, and a lesson until the lesson before it is. It
  also covers the next lesson to take, module status, percentages, the
  dashboard figures, previous/next navigation and the duration text.
- `Quizzes` covers quiz results and their mean, answer checking, the
  certificate requirements, quiz statistics and the glossary search.
- `AuthStore` covers the progress actions of the authentication store. Each
  action is a pure transition on the progress record. A `Store` class holds
  the signed-in user, and its methods apply the same transitions in place,
  one merge at a time as the store does. It also covers the per-module
  figure of the store and the defaults filled in on rehydration.
- `Utils` covers the input sanitizers.
- `Validations` covers the login and registration schemas. Each schema is
  the list of issues that `safeParse` reports.
- `Cadastro` covers the registration page: the password-strength counter,
  its label, the per-field error map built from the issues, and the
  payload sent to `register`.

Supporting modules:

- `Types` holds the records.
- `Text` holds the string helpers. JavaScript lengths are counted in UTF-16
  code units. `\s` is the ECMAScript white-space set, and `toLowerCase` is
  modelled on ASCII and Latin-1.
- `Arrays` holds the `Array.prototype` methods the code is built from.
- `Percent` holds `Math.round` of integer quotients. `Math.round(a / b * 100)`
  is computed exactly as `floor(100a/b + 1/2)`.

The catalog, the quiz list and the glossary are loaded from JSON data files
in the source. Here they are parameters (`catalog`, `quizzes`, `termos`).
Behaviour of the code worth knowing, which the model keeps:

- `isLicaoBloqueada` ignores whether the lesson itself is completed. See
  `Modulos.LicaoConcluidaAindaBloqueada`.
- `earnCertificate` overwrites an earlier timestamp rather than keeping it.
  See `AuthStore.EarnCertificateOverwrites`.
- `getProximaLicao` scans modules in catalog order, not by `ordem`.
- The progress fields are lists, not sets or maps, so a repeated id counts
  twice. The dashboard figure can then pass 100. See
  `Modulos.ProgressoGeralComRepeticao`.
- A completed lesson earns 10 points and a completed module 50.
- The certificate rule compares against a fixed total of 20 lessons.
- A locked module is reported locked even when it is marked complete. See
  `Modulos.StatusBloqueadoVenceCompleto`.

## Model

| member | source | states |
|---|---|---|
| Types.Tipo | src/types/index.ts:70-112 | every content item carries one of the six `tipo` tags |
| Types.TipoIdentificaVariante | src/types/index.ts:106-112 | two content items have the same tag exactly when they are of the same variant |
| Percent.RoundDiv | src/lib/quizzes.ts:32 | the result is the integer nearest to n/d, with halves rounded up |
| Percent.Percentual | src/lib/modulos.ts:142 | the result is the integer nearest to 100k/n, with halves rounded up |
| Percent.RoundDivBetween | src/lib/quizzes.ts:32 | rounding a quotient that lies between two integers stays between them |
| Percent.PercentualBounds | src/lib/modulos.ts:142 | a share of a whole lies in 0..100; it is 0 exactly below half a percent, and all of it is 100 |
| Percent.PercentualMonotone | src/lib/modulos.ts:142 | a larger share never gives a smaller percentage |
| Text.TrimSpec | src/lib/utils.ts:22 | `trim` yields the contiguous middle of the input, with no white space at either end; it is empty exactly when the input is all white space |
| Text.TrimKeepsText | src/lib/utils.ts:22 | `trim` drops only white space: every character of the result is in the input, and the non-space text is the input's, in order |
| Text.ToLowerIdempotent | src/lib/utils.ts:33 | lower-casing twice is lower-casing once |
| Text.Includes | src/lib/quizzes.ts:63-65 | `includes` holds exactly when the text occurs at some position |
| Text.JsLengthConcat | src/lib/validations.ts:6 | the UTF-16 length of a concatenation is the sum of the lengths |
| Arrays.Filter | src/lib/modulos.ts:138-140 | `filter` keeps each element that passes the test as often as it occurs and drops every other one |
| Arrays.FilterConcat | src/lib/modulos.ts:138-140 | `filter` works element by element: filtering a concatenation concatenates the filtered parts |
| Modulos.GetModuloById | src/lib/modulos.ts:10-12 | the result is a catalog module with that id; it is absent exactly when no module has the id |
| Modulos.GetModuloByIdFindsEach | src/lib/modulos.ts:10-12 | with distinct ids, every module is found by its own id |
| Modulos.GetLicaoById | src/lib/modulos.ts:15-19 | the lesson with that id in the first module with that id; absent when either is missing |
| Modulos.GetTotalLicoes | src/lib/modulos.ts:22-24 | every module's lessons are counted, and the total is 0 exactly when every module is empty |
| Modulos.GetTotalDuracao | src/lib/modulos.ts:27-29 | 0 for an empty catalog; with no negative duration the total is at least each module's duration |
| Modulos.TotaisUnitario | src/lib/modulos.ts:22-29 | a one-module catalog totals exactly that module's lesson count and duration |
| Modulos.TotaisConcat | src/lib/modulos.ts:22-29 | lesson and duration totals add up over a split catalog; with `TotaisUnitario` and the empty case, the totals are the sums of the modules' lesson counts and durations |
| Modulos.IdsLicoesBound | src/lib/modulos.ts:22-24 | there are no more distinct lesson ids than lessons counted |
| Modulos.CalcularDashboardStats | src/lib/modulos.ts:32-52 | the counts are the list lengths and catalog totals; the overall figure is the rounded percentage of completed lessons over all lessons, 0 without lessons, and never negative |
| Modulos.ProgressoGeralLimitado | src/lib/modulos.ts:40-42 | with distinct completed ids that are catalog lessons, the overall figure lies in 0..100 |
| Modulos.ProgressoGeralComRepeticao | src/lib/modulos.ts:38-41 | a lesson id stored twice counts twice: one lesson completed twice shows 200 |
| Modulos.IsModuloBloqueado | src/lib/modulos.ts:55-65 | an unknown module is never locked |
| Modulos.ModuloBloqueadoSse | src/lib/modulos.ts:55-65 | in a well-formed catalog a module is locked exactly when it is not of order 1, a module of the order below exists, and that module is not completed |
| Modulos.IsLicaoBloqueada | src/lib/modulos.ts:68-81 | locked for an unknown module; for an unknown or first lesson not locked; otherwise locked exactly when the previous lesson is not completed |
| Modulos.LicaoBloqueadaSse | src/lib/modulos.ts:68-81 | in a well-formed catalog lesson i is locked exactly when i > 0 and lesson i-1 is not completed |
| Modulos.LicaoConcluidaAindaBloqueada | src/lib/modulos.ts:76-80 | a completed lesson whose predecessor is not completed is still locked |
| Modulos.PrimeiraNaoConcluida | src/lib/modulos.ts:95-99 | the first lesson not completed, with all before it completed; -1 exactly when all are completed |
| Modulos.ProximaDesde | src/lib/modulos.ts:90-102 | the first unlocked module from k on with an uncompleted lesson, and that lesson; none exactly when every later module is locked or done |
| Modulos.GetProximaLicao | src/lib/modulos.ts:84-103 | none without a record; a returned lesson is never a completed one |
| Modulos.ProximaLicaoNulaSse | src/lib/modulos.ts:84-103 | there is no next lesson exactly when every module is locked or has all lessons completed |
| Modulos.ProximaLicaoPrimeira | src/lib/modulos.ts:90-99 | the returned lesson is the first uncompleted lesson of an unlocked module, and every module before it is locked or done |
| Modulos.GetModuloStatus | src/lib/modulos.ts:106-130 | locked for an unknown module, a missing record or a locked module; complete exactly when unlocked and listed as completed; in progress otherwise, whether or not any lesson is done |
| Modulos.StatusBloqueadoVenceCompleto | src/lib/modulos.ts:116-122 | a module listed as completed whose predecessor is not is reported locked |
| Modulos.ContarConcluidas | src/lib/modulos.ts:138-140 | at most the number of lessons, and equal to it exactly when all are completed |
| Modulos.ContarEhFiltro | src/lib/modulos.ts:138-140 | the count is the length of the lessons filtered by "id is in the list" |
| Modulos.CalcularProgressoModulo | src/lib/modulos.ts:133-143 | 0 for an unknown module or one without lessons; otherwise the rounded percentage of the module's lessons that are completed, which lies in 0..100 |
| Modulos.ProgressoModuloSoDependeDosIds | src/lib/modulos.ts:137-142 | only which of the module's own lesson ids are listed matters |
| Modulos.ProgressoModuloMonotono | src/lib/modulos.ts:133-143 | completing more lessons never lowers the percentage |
| Modulos.IsModuloCompleto | src/lib/modulos.ts:146-151 | true exactly when the module exists and every lesson of it is listed |
| Modulos.CompletoImplicaCem | src/lib/modulos.ts:133-151 | a complete module with lessons is at 100%, and one without lessons at 0% |
| Modulos.ModuloVazioCompleto | src/lib/modulos.ts:146-151 | an existing module without lessons is complete for every list |
| Modulos.GetLicaoAnterior | src/lib/modulos.ts:154-176 | a returned position names an existing module and one of its lessons |
| Modulos.GetLicaoProxima | src/lib/modulos.ts:179-198 | a returned position names an existing module and one of its lessons |
| Modulos.ProximaDaAnterior | src/lib/modulos.ts:154-198 | in a well-formed catalog, stepping back then forward returns to the same lesson |
| Modulos.AnteriorDaProxima | src/lib/modulos.ts:154-198 | in a well-formed catalog, stepping forward then back returns to the same lesson |
| Modulos.PassoDentroDoModulo | src/lib/modulos.ts:159-163 | inside a module both steps move by exactly one lesson |
| Modulos.AnteriorNoPrimeiro | src/lib/modulos.ts:166-175 | from a module's first lesson, "previous" is the last lesson of the module of the order below when it has lessons, and none otherwise |
| Modulos.ProximaNoUltimo | src/lib/modulos.ts:191-197 | from a module's last lesson, "next" is the first lesson of the module of the order above when it has lessons, and none otherwise |
| Modulos.NuloNasPontas | src/lib/modulos.ts:166-197 | no previous before the first module and no next after the last |
| Modulos.ProximaDeLicaoDesconhecida | src/lib/modulos.ts:184-188 | an unknown lesson id makes "next" go to the module's first lesson |
| Modulos.FormatarTempo | src/lib/modulos.ts:201-202 | below an hour the text is the number followed by ` min` |
| Modulos.FormatarTempoHorasMinutos | src/lib/modulos.ts:203-206 | from an hour up the text shows the whole hours (at least 1) and the minutes left over (below 60), with the minutes part omitted when they are 0 |
| Modulos.FormatarTempoInvertivel | src/lib/modulos.ts:201-207 | the text determines the minutes: reading it back gives the number formatted |
| Modulos.MinutosOmitidosSse | src/lib/modulos.ts:205-206 | from an hour up, the minutes part is written exactly when the minutes are not a whole number of hours |
| Modulos.LerHorasMinutos | src/lib/modulos.ts:206 | the text "Hh Mmin" stands for 60H + M minutes |
| Quizzes.GetQuizResult | src/lib/quizzes.ts:23-25 | the first stored result for the quiz; absent exactly when none is stored |
| Quizzes.IndiceQuiz | src/stores/authStore.ts:244 | the first index with the quiz id, with none before it; -1 exactly when there is none |
| Quizzes.CalcularNotaMedia | src/lib/quizzes.ts:27-33 | 0 with no results |
| Quizzes.NotaMediaEntreExtremos | src/lib/quizzes.ts:27-33 | the mean lies between the lowest and the highest stored percentage |
| Quizzes.SomaPercentuaisLimites | src/lib/quizzes.ts:31 | bounds on every percentage bound the sum |
| Quizzes.GetTotalQuizzesCompletos | src/lib/quizzes.ts:35-37 | the number of stored results, 0 exactly when there is none |
| Quizzes.IsQuizCompleto | src/lib/quizzes.ts:39-41 | true exactly when some stored result belongs to the module |
| Quizzes.VerificarResposta | src/lib/quizzes.ts:43-45 | an index is accepted exactly when it is the right one |
| Quizzes.UmaOpcaoCerta | src/lib/quizzes.ts:43-45 | a well-formed question accepts exactly one of its options |
| Quizzes.Corresponde | src/lib/quizzes.ts:62-66 | a term matches exactly when the query occurs in its lower-cased name, non-empty abbreviation or definition |
| Quizzes.FiltrarGlossario | src/lib/quizzes.ts:57-67 | a blank query returns the whole glossary; otherwise exactly the matching terms, each kept as often as it occurs, in glossary order |
| Quizzes.GetTermosPorModulo | src/lib/quizzes.ts:69-71 | exactly the terms of the module, each kept as often as it occurs, in glossary order |
| Quizzes.VerificarRequisitosCertificado | src/lib/quizzes.ts:84-98 | eligible exactly when at least 20 lessons and at least as many results as quizzes are recorded; the mean is reported |
| Quizzes.NotaNaoAfetaEmissao | src/lib/quizzes.ts:96 | eligibility depends only on the counts, never on the scores |
| Quizzes.EmissaoComNotaZero | src/lib/quizzes.ts:95-96 | a record whose every score is 0 can be eligible |
| Quizzes.CalcularQuizStats | src/lib/quizzes.ts:110-122 | the counts, the mean and the sums of right answers and of questions over the stored results |
| Quizzes.AcertosNaoExcedemTotal | src/lib/quizzes.ts:112-113 | when no result has more right answers than questions, neither do the totals |
| AuthStore.MergeProgress | src/stores/authStore.ts:203 | each field present in the update replaces the record's, and each absent one is kept |
| AuthStore.Combine | src/stores/authStore.ts:198-205 | for each field the later update's value wins when present, else the earlier's |
| AuthStore.MergeNothing | src/stores/authStore.ts:203 | merging an empty partial update changes nothing |
| AuthStore.MergeTwice | src/stores/authStore.ts:198-205 | two successive merges are one merge of the combined update, the later value winning |
| AuthStore.MergeIdempotent | src/stores/authStore.ts:198-205 | merging the same update again changes nothing more |
| AuthStore.MergeUser | src/stores/authStore.ts:187 | the spread `{ ...user, ...updates }`: every field present in the update replaces the user's, every absent one is kept; so an empty update keeps the user and a progress-only update changes only the progress |
| AuthStore.AddStudyTime | src/stores/authStore.ts:270-276 | the minutes are added to the study time and nothing else changes |
| AuthStore.CompleteLessonProgress | src/stores/authStore.ts:207-222 | a listed lesson changes nothing; a new one is appended, earns 10 points and adds a positive duration to the study time, and nothing else changes |
| AuthStore.CompleteModuleProgress | src/stores/authStore.ts:224-236 | a listed module changes nothing; a new one is appended and earns 50 points, and nothing else changes |
| AuthStore.UpsertResult | src/stores/authStore.ts:242-247 | the first result with the same quiz id is replaced in place, all others kept; with none, the result is appended |
| AuthStore.CompleteQuizProgress | src/stores/authStore.ts:238-252 | only the result list changes, by the upsert |
| AuthStore.UpsertThenLookup | src/stores/authStore.ts:238-252 | after recording a result, looking the quiz up finds that result |
| AuthStore.QuizCountAfterComplete | src/stores/authStore.ts:238-252 | recording a result raises the completed-quiz count by one for a new quiz and leaves it for a retake |
| AuthStore.UpsertKeepsIdsUnique | src/stores/authStore.ts:242-247 | a list with one result per quiz keeps one result per quiz |
| AuthStore.UpsertIdempotent | src/stores/authStore.ts:242-247 | recording the same result twice is recording it once |
| AuthStore.EarnCertificateProgress | src/stores/authStore.ts:254-259 | the timestamp is set to now, with no eligibility check, and nothing else changes |
| AuthStore.EarnCertificateOverwrites | src/stores/authStore.ts:254-259 | a second call replaces the first timestamp |
| AuthStore.SetPositionProgress | src/stores/authStore.ts:261-268 | current module, lesson and access time are set and nothing else changes |
| AuthStore.CertificadoAposUltimoQuiz | src/stores/authStore.ts:238-252 | with every lesson done and one result missing there is no certificate; recording a new quiz's result makes it available, retaking a recorded quiz does not |
| AuthStore.CompleteTwiceIsOnce | src/stores/authStore.ts:207-236 | completing the same lesson or module twice is completing it once |
| AuthStore.CompletionAdvances | src/stores/authStore.ts:207-252 | the completion lists only grow, points and study time never drop, and lists without repeats stay without repeats |
| AuthStore.SecondSegment | src/stores/authStore.ts:284 | the second `-`-separated piece, absent exactly when there is no `-` |
| AuthStore.SecondSegmentOf | src/stores/authStore.ts:284 | `a-b` and `a-b-c` give `b` |
| AuthStore.LessonPrefix | src/stores/authStore.ts:284 | `lic-` and the second piece, or `lic-undefined` when there is none |
| AuthStore.CountWithPrefix | src/stores/authStore.ts:283-285 | at most the list length; 0 exactly when no id has the prefix, the full length exactly when all do |
| AuthStore.CountIsFilter | src/stores/authStore.ts:283-285 | the count is the length of the ids filtered by the prefix test |
| AuthStore.ModuleProgress | src/stores/authStore.ts:278-288 | 0 with no user or a zero total; for a positive total `Percentual` of the count of completed ids with the module's prefix; for a negative total the integer r with r <= 100k/t + 1/2 < r + 1, as `Math.round` gives |
| AuthStore.ModuleProgressBounds | src/stores/authStore.ts:278-288 | with at most the total of matching ids the figure is in 0..100, and 100 when they are exactly the total |
| AuthStore.PrefixAlsoMatchesLongerNumbers | src/stores/authStore.ts:284 | for `mod-1` the prefix is `lic-1`, which also counts `lic-10-1` |
| AuthStore.Rehydrate | src/stores/authStore.ts:311-322 | a present field is kept; a missing list is empty, a missing number 0 and a missing optional field absent |
| AuthStore.RehydrateStored | src/stores/authStore.ts:311-322 | a complete record survives storing and rehydration; an empty one becomes the initial progress |
| AuthStore.RehydrateUser | src/stores/authStore.ts:311-322 | the user's fields are kept and the progress is rehydrated |
| AuthStore.Store.constructor | src/stores/authStore.ts:68-71 | nobody is signed in and there is no error |
| AuthStore.Store.FromStorage | src/stores/authStore.ts:306-322 | the stored user is restored with progress defaults filled in |
| AuthStore.Store.Logout | src/stores/authStore.ts:175-181 | no user, not authenticated, no error |
| AuthStore.Store.UpdateUser | src/stores/authStore.ts:183-196 | the signed-in user is merged with the update; nothing happens without one |
| AuthStore.Store.UpdateProgress | src/stores/authStore.ts:198-205 | the user's progress is merged with the update, every other user field kept |
| AuthStore.Store.AddTempoEstudo | src/stores/authStore.ts:270-276 | the user's progress becomes `AddStudyTime` of the old one |
| AuthStore.Store.CompleteLesson | src/stores/authStore.ts:207-222 | the user's progress becomes `CompleteLessonProgress` of the old one |
| AuthStore.Store.CompleteModule | src/stores/authStore.ts:224-236 | the user's progress becomes `CompleteModuleProgress` of the old one |
| AuthStore.Store.CompleteQuiz | src/stores/authStore.ts:238-252 | the user's progress becomes `CompleteQuizProgress` of the old one |
| AuthStore.Store.EarnCertificate | src/stores/authStore.ts:254-259 | the user's progress becomes `EarnCertificateProgress` of the old one |
| AuthStore.Store.SetCurrentPosition | src/stores/authStore.ts:261-268 | the user's progress becomes `SetPositionProgress` of the old one |
| AuthStore.Store.ResetProgress | src/stores/authStore.ts:290-297 | the progress returns to the initial one, every other user field kept |
| Utils.CollapseSpaces | src/lib/utils.ts:23 | no longer than the input, its only white space is the plain space, every other character comes from the input, and a text without white space is unchanged |
| Utils.CollapseRun | src/lib/utils.ts:23 | a run of white space between two pieces of text, or at either end, becomes exactly one space, each piece collapsed on its own; with the previous row this fixes the result for every input |
| Utils.CollapseKeepsText | src/lib/utils.ts:23 | collapsing keeps the non-space text in order |
| Utils.CollapseNoRuns | src/lib/utils.ts:23 | no two white-space characters are adjacent after collapsing |
| Utils.RemoveAngles | src/lib/utils.ts:24 | no `<` or `>` remains, every other character is kept as often as it occurs, and an input without them is unchanged |
| Utils.RemoveAnglesConcat | src/lib/utils.ts:24 | removal works character by character: the result for a concatenation is the concatenation of the results |
| Utils.SanitizeInput | src/lib/utils.ts:20-25 | never longer than the input, free of `<` and `>`, its only white space is the plain space, and its other text is the input's, in order, without the angle brackets |
| Utils.SanitizeInputClean | src/lib/utils.ts:20-25 | without angle brackets in the input, the result is the trimmed input with its white space collapsed: trimmed, no two spaces adjacent, and the non-space text kept |
| Utils.SanitizeInputJoinsWords | src/lib/utils.ts:20-25 | two bracket-free pieces separated by any run of white space are sanitized on their own and joined by exactly one space |
| Utils.SanitizeInputLeavesSpaces | src/lib/utils.ts:22-24 | removal runs last, so `< a` gives ` a` (not trimmed), `a < b` gives `a  b` (a double space), and a second pass changes the result |
| Utils.SanitizeName | src/lib/utils.ts:27-30 | only allowed characters remain, each allowed character of the sanitized input is kept as often as it occurs, and the order is kept |
| Utils.SanitizeEmail | src/lib/utils.ts:32-34 | the trimmed address lower-cased character by character, so lower-case, trimmed and no longer than the input |
| Utils.SanitizeEmailIdempotent | src/lib/utils.ts:32-34 | sanitizing twice is sanitizing once |
| Validations.Check | src/lib/validations.ts:5-12 | one issue with the message when the check fails, none when it passes |
| Validations.EmailIssues | src/lib/validations.ts:5-8 | no issue exactly when the address is non-empty and well formed; every issue is on `email` |
| Validations.LoginIssues | src/lib/validations.ts:4-13 | no issue exactly when the address is non-empty and well formed and the password has at least 6 characters; issues are on `email` or `password`, the e-mail's first |
| Validations.ParseLogin | src/lib/validations.ts:4-13 | accepted exactly when the address is non-empty and well formed and the password has at least 6 characters; each failing check is reported on its field |
| Validations.FirstLine | src/lib/validations.ts:33-35 | the longest prefix without a line terminator |
| Validations.NameIssues | src/lib/validations.ts:20-24 | no issue exactly when the name has 3 to 100 characters; every issue is on `name` |
| Validations.PasswordIssues | src/lib/validations.ts:29-36 | no issue exactly when the password has at least 6 characters and a lower-case letter, an upper-case letter and a digit on its first line |
| Validations.RegisterIssues | src/lib/validations.ts:18-43 | no issue exactly when every field check and the confirmation match hold; every issue is on one of the four checked fields |
| Validations.ParseRegister | src/lib/validations.ts:18-43 | accepted exactly when every field check and the confirmation match hold; a rejection lists all issues |
| Validations.MismatchReportedOnConfirmation | src/lib/validations.ts:40-43 | a differing confirmation is the last issue, on `confirmPassword` |
| Validations.DepartmentNeverRejects | src/lib/validations.ts:38 | the department never adds an issue |
| Validations.DigitAfterLineBreakIgnored | src/lib/validations.ts:33-35 | a digit after a line break does not satisfy the pattern |
| Cadastro.StrengthScore | src/app/auth/cadastro/page.tsx:71-79 | at most 5; 5 exactly when all five tests pass; 0 exactly for the empty password |
| Cadastro.GetPasswordStrength | src/app/auth/cadastro/page.tsx:71-79 | the counter equals the score, between 0 and 5 |
| Cadastro.AcceptedPasswordScoresFour | src/app/auth/cadastro/page.tsx:71-79 | a password the schema accepts scores at least 4 |
| Cadastro.StrengthGrowsWithText | src/app/auth/cadastro/page.tsx:71-79 | appending characters never lowers the score |
| Cadastro.TopScoreYetRejected | src/app/auth/cadastro/page.tsx:71-79 | a top score does not imply the schema accepts the password |
| Cadastro.StrengthLabel | src/app/auth/cadastro/page.tsx:187 | scores 1..5 show their label; any other shows `Muito fraca` |
| Cadastro.StrengthLabelsDistinguish | src/app/auth/cadastro/page.tsx:82 | scores 0 and 1 share the lowest label, scores 1..5 have distinct labels, and `Forte` means 5 |
| Cadastro.CollectFieldErrors | src/app/auth/cadastro/page.tsx:48-52 | each field maps to the message of its last issue, and a non-empty issue list gives a non-empty map |
| Cadastro.NormalizeRegister | src/app/auth/cadastro/page.tsx:58-63 | trimmed name, trimmed lower-case address, unchanged password, trimmed department or none when blank |
| Cadastro.HandleSubmit | src/app/auth/cadastro/page.tsx:42-68 | register is called exactly when the schema accepts, with the normalised payload; otherwise each field shows its last message |
| Cadastro.EmptyNameShowsLengthMessage | src/app/auth/cadastro/page.tsx:48-52 | an empty name shows the length message, not the required one |
| Cadastro.PaddedShortNameRegistered | src/app/auth/cadastro/page.tsx:46-63 | a two-letter name padded with spaces passes validation and is registered trimmed to two letters |

## Left out

- `login` and `register` of the store are not modelled. They call the network login route, the
  simulated user database in browser storage and id generation (`generateId`), which is random.
- The simulated user database (`getStoredUsers`, `saveUser`) is not modelled, and neither is the
  copy that `updateUser` writes to it. Only the store state is modelled.
- The clock (`new Date().toISOString()`) is the `now` parameter of `EarnCertificate` and
  `SetCurrentPosition`.
- `isLoading` and `clearError` are not modelled, because only `login` and `register` touch them.
- Floating-point division in `Math.round(a / b * 100)` is taken as exact rational arithmetic.
  The two agree on every value the code can meet, except where a float rounding error crosses a
  half.
- `toLowerCase` is modelled on ASCII and Latin-1 only. Other scripts are left unchanged.
- The e-mail format test of zod is the parameter `isEmail` of the schemas, not the regular
  expression itself.
- The quiz-taking page (attempt counting, explanations) and every view are not modelled. They
  are view state, not part of the progress logic.
- After `handleSubmit` calls `register`, the redirect to the dashboard is not modelled; it is
  navigation.
- Setting a field to `undefined` through a partial update is not modelled. An update field is
  either present with a value or absent.
- The stored user always carries a progress record, as the `User` type demands. `null` values
  read back from storage are treated as absent fields.
- Modulos.IsModuloBloqueado: its own contract only covers the unknown-module case. The full rule
  is stated by `Modulos.ModuloBloqueadoSse`, for well-formed catalogs.
- Modulos.GetLicaoAnterior: its own contract only says that the result exists. The full rule is
  stated by `Modulos.ProximaDaAnterior`, `Modulos.PassoDentroDoModulo` and
  `Modulos.NuloNasPontas`, for well-formed catalogs.
- Modulos.GetLicaoProxima: its own contract only says that the result exists. The full rule is
  stated by `Modulos.AnteriorDaProxima`, `Modulos.PassoDentroDoModulo`, `Modulos.NuloNasPontas`
  and `Modulos.ProximaDeLicaoDesconhecida`.
- Utils.SanitizeInput: its own contract fixes the text other than white space and that the
  only white space is the plain space. Where the spaces fall when angle brackets are removed is
  fixed by the three steps it composes (`Text.TrimSpec`, `Utils.CollapseRun`,
  `Utils.RemoveAnglesConcat`), not by its own `ensures`. `Utils.SanitizeInputClean` and
  `Utils.SanitizeInputJoinsWords` state the spacing for bracket-free input.
- Quizzes.CalcularNotaMedia: its own contract only covers the empty case. The bounds are stated
  by `Quizzes.NotaMediaEntreExtremos`.
