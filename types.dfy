/** Record and union types of the training platform (modules, lessons, quizzes,
    glossary terms and the per-user progress record). Strings are `seq<char>`,
    numbers that the source only counts with are `int`/`nat`, and an optional
    property `x?: T` is an `Option<T>`. */
module Types {

  datatype Option<+T> = None | Some(value: T)

  /** One question of a quiz: four options and the index of the right one. */
  datatype Questao = Questao(
    id: string,
    pergunta: string,
    opcoes: seq<string>,
    respostaCorreta: int,
    explicacao: string,
    trechoReferencia: string)

  /** The documented shape of a question: exactly four options and a correct
      index among them. */
  predicate QuestaoBemFormada(q: Questao)
  {
    |q.opcoes| == 4 && 0 <= q.respostaCorreta < 4
  }

  datatype Quiz = Quiz(id: string, moduloId: string, titulo: string, questoes: seq<Questao>)

  /** The stored outcome of one finished quiz. */
  datatype QuizResult = QuizResult(
    quizId: string,
    moduloId: string,
    acertos: int,
    total: int,
    percentual: int,
    completedAt: string)

  datatype TermoGlossario = TermoGlossario(
    id: string,
    termo: string,
    sigla: Option<string>,
    definicao: string,
    exemplo: Option<string>,
    moduloId: string)

  datatype Cor = Green | Blue | Amber

  /** The six kinds of lesson content, one constructor per value of `tipo`. */
  datatype ConteudoItem =
    | Texto(conteudo: string)
    | Destaque(conteudo: string, cor: Cor)
    | Importante(texto: string)
    | Definicao(termo: string, explicacao: string)
    | Lista(titulo: string, itens: seq<string>)
    | Exemplo(titulo: string, conteudo: string)

  /** The `tipo` tag carried by every content item. */
  function Tipo(c: ConteudoItem): (t: string)
    ensures t in {"texto", "destaque", "importante", "definicao", "lista", "exemplo"}
  {
    match c
    case Texto(_) => "texto"
    case Destaque(_, _) => "destaque"
    case Importante(_) => "importante"
    case Definicao(_, _) => "definicao"
    case Lista(_, _) => "lista"
    case Exemplo(_, _) => "exemplo"
  }

  /** The tag determines the variant: two items with the same `tipo` are of
      the same kind. */
  lemma TipoIdentificaVariante(a: ConteudoItem, b: ConteudoItem)
    ensures Tipo(a) == Tipo(b) <==>
      (a.Texto? && b.Texto?) || (a.Destaque? && b.Destaque?) || (a.Importante? && b.Importante?) ||
      (a.Definicao? && b.Definicao?) || (a.Lista? && b.Lista?) || (a.Exemplo? && b.Exemplo?)
  {
  }

  datatype Licao = Licao(id: string, titulo: string, duracao: int, conteudo: seq<ConteudoItem>)

  datatype Modulo = Modulo(
    id: string,
    ordem: int,
    titulo: string,
    descricao: string,
    duracao: int,
    cor: string,
    icone: string,
    licoes: seq<Licao>)

  /** The per-user progress record. `tempoEstudo` counts minutes and `xp`
      experience points. */
  datatype UserProgress = UserProgress(
    completedModules: seq<string>,
    completedLessons: seq<string>,
    completedQuizzes: seq<QuizResult>,
    currentModuleId: Option<string>,
    currentLessonId: Option<string>,
    lastAccessAt: Option<string>,
    certificateEarnedAt: Option<string>,
    tempoEstudo: int,
    xp: int)

  datatype Role = Colaborador | Gestor | Admin

  datatype User = User(
    id: string,
    name: string,
    email: string,
    avatar: Option<string>,
    role: Role,
    department: Option<string>,
    createdAt: string,
    progress: UserProgress)

  /** Figures shown on the dashboard. */
  datatype DashboardStats = DashboardStats(
    progressoGeral: int,
    modulosCompletos: int,
    licoesCompletas: int,
    tempoEstudo: int,
    totalModulos: int,
    totalLicoes: int)

  datatype LoginCredentials = LoginCredentials(email: string, password: string)

  /** What the register action of the store receives. */
  datatype RegisterData = RegisterData(name: string, email: string, password: string, department: Option<string>)

  /** A lesson position: the module id and the lesson id. */
  datatype Posicao = Posicao(moduloId: string, licaoId: string)

  /** The catalog's own consistency: distinct module ids, distinct `ordem`
      values and distinct lesson ids inside each module. */
  predicate IdsModulosUnicos(catalog: seq<Modulo>)
  {
    forall i, j :: 0 <= i < j < |catalog| ==> catalog[i].id != catalog[j].id
  }

  predicate OrdensUnicas(catalog: seq<Modulo>)
  {
    forall i, j :: 0 <= i < j < |catalog| ==> catalog[i].ordem != catalog[j].ordem
  }

  predicate LicoesUnicas(licoes: seq<Licao>)
  {
    forall i, j :: 0 <= i < j < |licoes| ==> licoes[i].id != licoes[j].id
  }

  predicate CatalogoBemFormado(catalog: seq<Modulo>)
  {
    IdsModulosUnicos(catalog) && OrdensUnicas(catalog) &&
    forall k :: 0 <= k < |catalog| ==> LicoesUnicas(catalog[k].licoes)
  }
}
