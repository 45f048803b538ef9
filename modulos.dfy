/** Gating and progress arithmetic over the module catalog (src/lib/modulos.ts).
    The catalog that the source loads from its JSON data file is the
    parameter `catalog`, in the file's array order. */
module Modulos {
  import opened Types
  import opened Arrays
  import opened Percent
  import opened Text

  // ---------------------------------------------------------------- lookups

  /** Position of the first module with the given id (`find` by id), -1 when absent. */
  function IndiceModulo(catalog: seq<Modulo>, moduloId: string): (i: int)
    ensures -1 <= i < |catalog|
    ensures 0 <= i ==> catalog[i].id == moduloId && forall k :: 0 <= k < i ==> catalog[k].id != moduloId
    ensures i == -1 <==> forall k :: 0 <= k < |catalog| ==> catalog[k].id != moduloId
  {
    FindIndex(catalog, (m: Modulo) => m.id == moduloId)
  }

  /** `getModuloById`: the first module with the given id. */
  function GetModuloById(catalog: seq<Modulo>, moduloId: string): (r: Option<Modulo>)
    ensures r.Some? ==> r.value in catalog && r.value.id == moduloId
    ensures r.None? <==> forall k :: 0 <= k < |catalog| ==> catalog[k].id != moduloId
  {
    var i := IndiceModulo(catalog, moduloId);
    if i < 0 then None else Some(catalog[i])
  }

  /** With distinct module ids, every module is found by its own id. */
  lemma GetModuloByIdFindsEach(catalog: seq<Modulo>, k: nat)
    requires IdsModulosUnicos(catalog) && k < |catalog|
    ensures IndiceModulo(catalog, catalog[k].id) == k
    ensures GetModuloById(catalog, catalog[k].id) == Some(catalog[k])
  {
  }

  /** Position of the first module with the given order, -1 when absent. */
  function IndiceOrdem(catalog: seq<Modulo>, ordem: int): (i: int)
    ensures -1 <= i < |catalog|
    ensures 0 <= i ==> catalog[i].ordem == ordem && forall k :: 0 <= k < i ==> catalog[k].ordem != ordem
    ensures i == -1 <==> forall k :: 0 <= k < |catalog| ==> catalog[k].ordem != ordem
  {
    FindIndex(catalog, (m: Modulo) => m.ordem == ordem)
  }

  /** `modulos.find(m => m.ordem === ordem)`. */
  function ModuloDeOrdem(catalog: seq<Modulo>, ordem: int): (r: Option<Modulo>)
    ensures r.Some? ==> r.value in catalog && r.value.ordem == ordem
    ensures r.None? <==> forall k :: 0 <= k < |catalog| ==> catalog[k].ordem != ordem
  {
    var i := IndiceOrdem(catalog, ordem);
    if i < 0 then None else Some(catalog[i])
  }

  /** With distinct orders, the module of a given order is the one that has it. */
  lemma ModuloDeOrdemUnico(catalog: seq<Modulo>, k: nat)
    requires OrdensUnicas(catalog) && k < |catalog|
    ensures IndiceOrdem(catalog, catalog[k].ordem) == k
    ensures ModuloDeOrdem(catalog, catalog[k].ordem) == Some(catalog[k])
  {
  }

  /** Position of a lesson inside its module (`findIndex`), -1 when absent. */
  function IndiceLicao(licoes: seq<Licao>, licaoId: string): (i: int)
    ensures -1 <= i < |licoes|
    ensures 0 <= i ==> licoes[i].id == licaoId && forall k :: 0 <= k < i ==> licoes[k].id != licaoId
    ensures i == -1 <==> forall k :: 0 <= k < |licoes| ==> licoes[k].id != licaoId
  {
    FindIndex(licoes, (l: Licao) => l.id == licaoId)
  }

  lemma IndiceLicaoOfEach(licoes: seq<Licao>, i: nat)
    requires LicoesUnicas(licoes) && i < |licoes|
    ensures IndiceLicao(licoes, licoes[i].id) == i
  {
  }

  /** `getLicaoById`: the lesson of the named module with the given id. */
  function GetLicaoById(catalog: seq<Modulo>, moduloId: string, licaoId: string): (r: Option<Licao>)
    ensures r.Some? ==>
      r.value.id == licaoId &&
      GetModuloById(catalog, moduloId).Some? && r.value in GetModuloById(catalog, moduloId).value.licoes
    ensures r.None? <==>
      GetModuloById(catalog, moduloId).None? ||
      forall k :: 0 <= k < |GetModuloById(catalog, moduloId).value.licoes| ==>
        GetModuloById(catalog, moduloId).value.licoes[k].id != licaoId
  {
    match GetModuloById(catalog, moduloId)
    case None => None
    case Some(m) =>
      var i := IndiceLicao(m.licoes, licaoId);
      if i < 0 then None else Some(m.licoes[i])
  }

  /** `getTotalLicoes`: the number of lessons in the catalog. Every
      module's lessons are counted, and there are none exactly when every
      module is empty. */
  function GetTotalLicoes(catalog: seq<Modulo>): (n: nat)
    ensures forall k :: 0 <= k < |catalog| ==> |catalog[k].licoes| <= n
    ensures n == 0 <==> forall k :: 0 <= k < |catalog| ==> catalog[k].licoes == []
  {
    if catalog == [] then 0 else |catalog[0].licoes| + GetTotalLicoes(catalog[1..])
  }

  /** `getTotalDuracao`: the sum of the modules' declared durations; with
      no negative duration it is at least each module's own. */
  function GetTotalDuracao(catalog: seq<Modulo>): (n: int)
    ensures catalog == [] ==> n == 0
    ensures (forall k :: 0 <= k < |catalog| ==> catalog[k].duracao >= 0) ==>
      n >= 0 && forall k :: 0 <= k < |catalog| ==> catalog[k].duracao <= n
  {
    if catalog == [] then 0 else catalog[0].duracao + GetTotalDuracao(catalog[1..])
  }

  /** A one-module catalog totals that module's lesson count and duration;
      with `TotaisConcat`, the totals are the sums over the modules. */
  lemma TotaisUnitario(m: Modulo)
    ensures GetTotalLicoes([m]) == |m.licoes|
    ensures GetTotalDuracao([m]) == m.duracao
  {
    assert [m][1..] == [];
  }

  /** Totals add up over a split catalog. */
  lemma {:induction false} TotaisConcat(a: seq<Modulo>, b: seq<Modulo>)
    ensures GetTotalLicoes(a + b) == GetTotalLicoes(a) + GetTotalLicoes(b)
    ensures GetTotalDuracao(a + b) == GetTotalDuracao(a) + GetTotalDuracao(b)
  {
    if a != [] {
      assert (a + b)[0] == a[0] && (a + b)[1..] == a[1..] + b;
      TotaisConcat(a[1..], b);
    } else {
      assert a + b == b;
    }
  }

  /** Every lesson id of the catalog. */
  function IdsLicoes(catalog: seq<Modulo>): set<string>
  {
    if catalog == [] then {} else (set l | l in catalog[0].licoes :: l.id) + IdsLicoes(catalog[1..])
  }

  lemma {:induction false} IdsLicoesCount(licoes: seq<Licao>)
    ensures |set l | l in licoes :: l.id| <= |licoes|
  {
    if licoes != [] {
      IdsLicoesCount(licoes[1..]);
      assert (set l | l in licoes :: l.id) == {licoes[0].id} + (set l | l in licoes[1..] :: l.id);
    }
  }

  /** There are no more distinct lesson ids than lessons. */
  lemma {:induction false} IdsLicoesBound(catalog: seq<Modulo>)
    ensures |IdsLicoes(catalog)| <= GetTotalLicoes(catalog)
  {
    if catalog != [] {
      IdsLicoesCount(catalog[0].licoes);
      IdsLicoesBound(catalog[1..]);
    }
  }

  // ------------------------------------------------------------- dashboard

  /** `calcularDashboardStats`. */
  function CalcularDashboardStats(catalog: seq<Modulo>, progress: UserProgress): (s: DashboardStats)
    ensures s.totalLicoes == GetTotalLicoes(catalog) && s.totalModulos == |catalog|
    ensures s.licoesCompletas == |progress.completedLessons| && s.modulosCompletos == |progress.completedModules|
    ensures s.tempoEstudo == progress.tempoEstudo
    ensures s.totalLicoes == 0 ==> s.progressoGeral == 0
    ensures s.totalLicoes > 0 ==> s.progressoGeral == Percentual(s.licoesCompletas, s.totalLicoes)
    ensures s.progressoGeral >= 0
  {
    var total := GetTotalLicoes(catalog);
    var feitas := |progress.completedLessons|;
    DashboardStats(
      progressoGeral := if total > 0 then Percentual(feitas, total) else 0,
      modulosCompletos := |progress.completedModules|,
      licoesCompletas := feitas,
      tempoEstudo := progress.tempoEstudo,
      totalModulos := |catalog|,
      totalLicoes := total)
  }

  /** The overall percentage stays within 0..100 as long as the completed
      list holds distinct lesson ids of the catalog. */
  lemma ProgressoGeralLimitado(catalog: seq<Modulo>, progress: UserProgress)
    requires Distinct(progress.completedLessons)
    requires forall k :: 0 <= k < |progress.completedLessons| ==> progress.completedLessons[k] in IdsLicoes(catalog)
    ensures 0 <= CalcularDashboardStats(catalog, progress).progressoGeral <= 100
  {
    var cl := progress.completedLessons;
    ElementsBound(cl);
    assert Elements(cl) <= IdsLicoes(catalog);
    IdsLicoesBound(catalog);
    SubsetCard(Elements(cl), IdsLicoes(catalog));
    if GetTotalLicoes(catalog) > 0 {
      PercentualBounds(|cl|, GetTotalLicoes(catalog));
    }
  }

  lemma SubsetCard<T>(a: set<T>, b: set<T>)
    requires a <= b
    ensures |a| <= |b|
  {
    assert b == a + (b - a);
  }

  /** The counts are raw list lengths: a repeated id counts twice, and the
      overall percentage can pass 100. */
  lemma ProgressoGeralComRepeticao()
    ensures var catalog := [Modulo("mod-1", 1, "", "", 10, "", "", [Licao("lic-1-1", "", 10, [])])];
      var progress := UserProgress([], ["lic-1-1", "lic-1-1"], [], None, None, None, None, 0, 0);
      CalcularDashboardStats(catalog, progress).progressoGeral == 200
  {
    var catalog := [Modulo("mod-1", 1, "", "", 10, "", "", [Licao("lic-1-1", "", 10, [])])];
    assert GetTotalLicoes(catalog) == 1 by { assert catalog[1..] == []; }
  }

  // ---------------------------------------------------------------- gating

  /** `isModuloBloqueado`. */
  function IsModuloBloqueado(catalog: seq<Modulo>, moduloId: string, completedModules: seq<string>): (b: bool)
    ensures (forall k :: 0 <= k < |catalog| ==> catalog[k].id != moduloId) ==> !b
  {
    match GetModuloById(catalog, moduloId)
    case None => false
    case Some(atual) =>
      if atual.ordem == 1 then false
      else
        match ModuloDeOrdem(catalog, atual.ordem - 1)
        case None => false
        case Some(anterior) => anterior.id !in completedModules
  }

  /** In a well-formed catalog a module is locked exactly when its order is not
      1, some module has the order just below, and that module is not in the
      completed list. */
  lemma ModuloBloqueadoSse(catalog: seq<Modulo>, k: nat, completedModules: seq<string>)
    requires CatalogoBemFormado(catalog) && k < |catalog|
    ensures IsModuloBloqueado(catalog, catalog[k].id, completedModules) <==>
      catalog[k].ordem != 1 &&
      exists j :: 0 <= j < |catalog| && catalog[j].ordem == catalog[k].ordem - 1 && catalog[j].id !in completedModules
    ensures catalog[k].ordem == 1 ==> !IsModuloBloqueado(catalog, catalog[k].id, completedModules)
  {
    GetModuloByIdFindsEach(catalog, k);
    if catalog[k].ordem != 1 {
      if j :| 0 <= j < |catalog| && catalog[j].ordem == catalog[k].ordem - 1 {
        ModuloDeOrdemUnico(catalog, j);
      }
    }
  }

  /** `isLicaoBloqueada`. */
  function IsLicaoBloqueada(catalog: seq<Modulo>, moduloId: string, licaoId: string, completedLessons: seq<string>): (b: bool)
    ensures GetModuloById(catalog, moduloId).None? ==> b
    ensures GetModuloById(catalog, moduloId).Some? ==>
      var licoes := GetModuloById(catalog, moduloId).value.licoes;
      var i := IndiceLicao(licoes, licaoId);
      (b <==> i > 0 && licoes[i - 1].id !in completedLessons)
  {
    match GetModuloById(catalog, moduloId)
    case None => true
    case Some(m) =>
      var i := IndiceLicao(m.licoes, licaoId);
      if i <= 0 then false else m.licoes[i - 1].id !in completedLessons
  }

  /** In a well-formed catalog, lesson `i` of module `k` is locked exactly when
      it is not the first and lesson `i - 1` is not completed; an id that is
      not a lesson of the module is never locked. */
  lemma LicaoBloqueadaSse(catalog: seq<Modulo>, k: nat, i: nat, completedLessons: seq<string>)
    requires CatalogoBemFormado(catalog) && k < |catalog| && i < |catalog[k].licoes|
    ensures IsLicaoBloqueada(catalog, catalog[k].id, catalog[k].licoes[i].id, completedLessons) <==>
      i > 0 && catalog[k].licoes[i - 1].id !in completedLessons
  {
    GetModuloByIdFindsEach(catalog, k);
    IndiceLicaoOfEach(catalog[k].licoes, i);
  }

  /** The lock ignores whether the lesson itself is completed: a completed
      lesson whose predecessor is not completed is reported locked. */
  lemma LicaoConcluidaAindaBloqueada()
    ensures var catalog := [Modulo("mod-1", 1, "", "", 0, "", "", [Licao("a", "", 5, []), Licao("b", "", 5, [])])];
      IsLicaoBloqueada(catalog, "mod-1", "b", ["b"])
  {
    var catalog := [Modulo("mod-1", 1, "", "", 0, "", "", [Licao("a", "", 5, []), Licao("b", "", 5, [])])];
    assert CatalogoBemFormado(catalog);
    LicaoBloqueadaSse(catalog, 0, 1, ["b"]);
  }

  // ------------------------------------------------------------ next lesson

  /** Every lesson of the list is in `completedLessons`. */
  predicate TodasConcluidas(licoes: seq<Licao>, completedLessons: seq<string>)
  {
    forall l :: 0 <= l < |licoes| ==> licoes[l].id in completedLessons
  }

  /** The inner loop of `getProximaLicao`: the first lesson not in the list, or -1. */
  function PrimeiraNaoConcluida(licoes: seq<Licao>, completedLessons: seq<string>): (j: int)
    ensures -1 <= j < |licoes|
    ensures 0 <= j ==> licoes[j].id !in completedLessons
    ensures forall l :: 0 <= l < j ==> licoes[l].id in completedLessons
    ensures j == -1 <==> TodasConcluidas(licoes, completedLessons)
  {
    if licoes == [] then -1
    else if licoes[0].id !in completedLessons then 0
    else
      var j := PrimeiraNaoConcluida(licoes[1..], completedLessons);
      if j < 0 then -1 else j + 1
  }

  /** Module `m` is locked or has all its lessons completed. */
  predicate FeitoOuBloqueado(catalog: seq<Modulo>, m: nat, completedModules: seq<string>, completedLessons: seq<string>)
    requires m < |catalog|
  {
    IsModuloBloqueado(catalog, catalog[m].id, completedModules) || TodasConcluidas(catalog[m].licoes, completedLessons)
  }

  /** Every unlocked module from position `k` to before `i` is fully completed. */
  predicate AbertosConcluidos(catalog: seq<Modulo>, k: nat, i: nat, completedModules: seq<string>, completedLessons: seq<string>)
    requires k <= i <= |catalog|
    decreases i - k
  {
    k == i ||
    (FeitoOuBloqueado(catalog, k, completedModules, completedLessons) &&
     AbertosConcluidos(catalog, k + 1, i, completedModules, completedLessons))
  }

  /** The same, stated module by module. */
  lemma {:induction false} AbertosConcluidosSse(catalog: seq<Modulo>, k: nat, i: nat, completedModules: seq<string>, completedLessons: seq<string>)
    requires k <= i <= |catalog|
    ensures AbertosConcluidos(catalog, k, i, completedModules, completedLessons) <==>
      forall m :: k <= m < i ==> FeitoOuBloqueado(catalog, m, completedModules, completedLessons)
    decreases i - k
  {
    if k < i {
      AbertosConcluidosSse(catalog, k + 1, i, completedModules, completedLessons);
      if AbertosConcluidos(catalog, k, i, completedModules, completedLessons) {
        forall m | k <= m < i
          ensures FeitoOuBloqueado(catalog, m, completedModules, completedLessons)
        {
          if m > k {
            assert k + 1 <= m < i;
          }
        }
      } else if FeitoOuBloqueado(catalog, k, completedModules, completedLessons) {
        var m :| k + 1 <= m < i && !FeitoOuBloqueado(catalog, m, completedModules, completedLessons);
      }
    }
  }

  /** The search of `getProximaLicao` from module position `k` on: the module
      and lesson positions of the first uncompleted lesson of an unlocked
      module. */
  function ProximaDesde(catalog: seq<Modulo>, k: nat, completedModules: seq<string>, completedLessons: seq<string>): (r: Option<(nat, nat)>)
    requires k <= |catalog|
    ensures r.Some? ==>
      k <= r.value.0 < |catalog| && r.value.1 < |catalog[r.value.0].licoes| &&
      !IsModuloBloqueado(catalog, catalog[r.value.0].id, completedModules) &&
      PrimeiraNaoConcluida(catalog[r.value.0].licoes, completedLessons) == r.value.1 &&
      AbertosConcluidos(catalog, k, r.value.0, completedModules, completedLessons)
    ensures r.None? <==> AbertosConcluidos(catalog, k, |catalog|, completedModules, completedLessons)
    decreases |catalog| - k
  {
    if k == |catalog| then None
    else if IsModuloBloqueado(catalog, catalog[k].id, completedModules) then
      ProximaDesde(catalog, k + 1, completedModules, completedLessons)
    else
      var j := PrimeiraNaoConcluida(catalog[k].licoes, completedLessons);
      if j >= 0 then Some((k, j)) else ProximaDesde(catalog, k + 1, completedModules, completedLessons)
  }

  /** `getProximaLicao`: where to continue. A missing progress record gives none. */
  function GetProximaLicao(catalog: seq<Modulo>, progress: Option<UserProgress>): (r: Option<Posicao>)
    ensures progress.None? ==> r.None?
    ensures progress.Some? ==>
      (r.None? <==> AbertosConcluidos(catalog, 0, |catalog|, progress.value.completedModules, progress.value.completedLessons))
    ensures r.Some? ==> r.value.licaoId !in progress.value.completedLessons
  {
    match progress
    case None => None
    case Some(p) =>
      match ProximaDesde(catalog, 0, p.completedModules, p.completedLessons)
      case None => None
      case Some((i, j)) => Some(Posicao(catalog[i].id, catalog[i].licoes[j].id))
  }

  /** There is no next lesson exactly when every module is locked or completed. */
  lemma ProximaLicaoNulaSse(catalog: seq<Modulo>, p: UserProgress)
    ensures GetProximaLicao(catalog, Some(p)).None? <==>
      forall m :: 0 <= m < |catalog| ==> FeitoOuBloqueado(catalog, m, p.completedModules, p.completedLessons)
  {
    AbertosConcluidosSse(catalog, 0, |catalog|, p.completedModules, p.completedLessons);
  }

  /** What `getProximaLicao` returns is the first uncompleted lesson, in
      catalog order, of the unlocked modules: lesson `j` of module `i`, with
      every lesson before it in that module completed and every earlier
      unlocked module fully completed. */
  lemma ProximaLicaoPrimeira(catalog: seq<Modulo>, p: UserProgress)
    requires GetProximaLicao(catalog, Some(p)).Some?
    ensures exists i, j ::
      0 <= i < |catalog| && 0 <= j < |catalog[i].licoes| &&
      GetProximaLicao(catalog, Some(p)) == Some(Posicao(catalog[i].id, catalog[i].licoes[j].id)) &&
      !IsModuloBloqueado(catalog, catalog[i].id, p.completedModules) &&
      (forall l :: 0 <= l < j ==> catalog[i].licoes[l].id in p.completedLessons) &&
      forall m :: 0 <= m < i ==> FeitoOuBloqueado(catalog, m, p.completedModules, p.completedLessons)
  {
    var (i, j) := ProximaDesde(catalog, 0, p.completedModules, p.completedLessons).value;
    AbertosConcluidosSse(catalog, 0, i, p.completedModules, p.completedLessons);
    assert GetProximaLicao(catalog, Some(p)) == Some(Posicao(catalog[i].id, catalog[i].licoes[j].id));
  }

  // ---------------------------------------------------------------- status

  datatype ModuloStatus = Bloqueado | EmAndamento | Completo

  /** `getModuloStatus`. */
  function GetModuloStatus(catalog: seq<Modulo>, moduloId: string, progress: Option<UserProgress>): (s: ModuloStatus)
    ensures GetModuloById(catalog, moduloId).None? || progress.None? ==> s == Bloqueado
    ensures progress.Some? && IsModuloBloqueado(catalog, moduloId, progress.value.completedModules) ==> s == Bloqueado
    ensures s == Completo <==>
      GetModuloById(catalog, moduloId).Some? && progress.Some? &&
      !IsModuloBloqueado(catalog, moduloId, progress.value.completedModules) &&
      moduloId in progress.value.completedModules
    ensures s == EmAndamento <==>
      GetModuloById(catalog, moduloId).Some? && progress.Some? &&
      !IsModuloBloqueado(catalog, moduloId, progress.value.completedModules) &&
      moduloId !in progress.value.completedModules
  {
    match GetModuloById(catalog, moduloId)
    case None => Bloqueado
    case Some(m) =>
      match progress
      case None => Bloqueado
      case Some(p) =>
        if IsModuloBloqueado(catalog, moduloId, p.completedModules) then Bloqueado
        else if moduloId in p.completedModules then Completo
        else
          var temLicaoCompleta := exists l :: l in m.licoes && l.id in p.completedLessons;
          if temLicaoCompleta then EmAndamento else EmAndamento
  }

  /** A module that is locked is reported locked even when it is marked completed. */
  lemma StatusBloqueadoVenceCompleto()
    ensures var catalog := [Modulo("mod-1", 1, "", "", 0, "", "", []), Modulo("mod-2", 2, "", "", 0, "", "", [])];
      var p := UserProgress(["mod-2"], [], [], None, None, None, None, 0, 0);
      GetModuloStatus(catalog, "mod-2", Some(p)) == Bloqueado
  {
    var catalog := [Modulo("mod-1", 1, "", "", 0, "", "", []), Modulo("mod-2", 2, "", "", 0, "", "", [])];
    assert CatalogoBemFormado(catalog);
    ModuloBloqueadoSse(catalog, 1, ["mod-2"]);
  }

  // ---------------------------------------------------- module completion

  /** How many of the module's lessons occur in the list (the `filter(...).length`). */
  function ContarConcluidas(licoes: seq<Licao>, completedLessons: seq<string>): (n: nat)
    ensures n <= |licoes|
    ensures n == |licoes| <==> TodasConcluidas(licoes, completedLessons)
  {
    if licoes == [] then 0
    else
      var resto := ContarConcluidas(licoes[1..], completedLessons);
      assert TodasConcluidas(licoes, completedLessons) <==>
        licoes[0].id in completedLessons && TodasConcluidas(licoes[1..], completedLessons);
      (if licoes[0].id in completedLessons then 1 else 0) + resto
  }

  /** The count is the length of the `filter` of the module's lessons by
      membership of their id in the list, as the source computes it. */
  lemma {:induction false} ContarEhFiltro(licoes: seq<Licao>, completedLessons: seq<string>, concluida: Licao -> bool)
    requires forall l :: concluida(l) <==> l.id in completedLessons
    ensures ContarConcluidas(licoes, completedLessons) == |Filter(licoes, concluida)|
  {
    if licoes != [] {
      ContarEhFiltro(licoes[1..], completedLessons, concluida);
    }
  }

  lemma {:induction false} ContarMonotono(licoes: seq<Licao>, l1: seq<string>, l2: seq<string>)
    requires forall x :: x in l1 ==> x in l2
    ensures ContarConcluidas(licoes, l1) <= ContarConcluidas(licoes, l2)
  {
    if licoes != [] {
      ContarMonotono(licoes[1..], l1, l2);
    }
  }

  lemma {:induction false} ContarSoDependeDosIds(licoes: seq<Licao>, l1: seq<string>, l2: seq<string>)
    requires forall k :: 0 <= k < |licoes| ==> (licoes[k].id in l1 <==> licoes[k].id in l2)
    ensures ContarConcluidas(licoes, l1) == ContarConcluidas(licoes, l2)
  {
    if licoes != [] {
      ContarSoDependeDosIds(licoes[1..], l1, l2);
    }
  }

  /** `calcularProgressoModulo`. */
  function CalcularProgressoModulo(catalog: seq<Modulo>, moduloId: string, completedLessons: seq<string>): (r: int)
    ensures 0 <= r <= 100
    ensures GetModuloById(catalog, moduloId).None? || GetModuloById(catalog, moduloId).value.licoes == [] ==> r == 0
    ensures GetModuloById(catalog, moduloId).Some? && GetModuloById(catalog, moduloId).value.licoes != [] ==>
      r == Percentual(ContarConcluidas(GetModuloById(catalog, moduloId).value.licoes, completedLessons),
                      |GetModuloById(catalog, moduloId).value.licoes|)
  {
    match GetModuloById(catalog, moduloId)
    case None => 0
    case Some(m) =>
      if |m.licoes| == 0 then 0
      else
        PercentualBounds(ContarConcluidas(m.licoes, completedLessons), |m.licoes|);
        Percentual(ContarConcluidas(m.licoes, completedLessons), |m.licoes|)
  }

  /** Only which of the module's own lesson ids occur in the list matters:
      order, repetitions and foreign ids do not. */
  lemma ProgressoModuloSoDependeDosIds(catalog: seq<Modulo>, moduloId: string, l1: seq<string>, l2: seq<string>)
    requires GetModuloById(catalog, moduloId).Some?
    requires forall k :: 0 <= k < |GetModuloById(catalog, moduloId).value.licoes| ==>
      (GetModuloById(catalog, moduloId).value.licoes[k].id in l1 <==> GetModuloById(catalog, moduloId).value.licoes[k].id in l2)
    ensures CalcularProgressoModulo(catalog, moduloId, l1) == CalcularProgressoModulo(catalog, moduloId, l2)
  {
    ContarSoDependeDosIds(GetModuloById(catalog, moduloId).value.licoes, l1, l2);
  }

  /** Completing more lessons never lowers a module's percentage. */
  lemma ProgressoModuloMonotono(catalog: seq<Modulo>, moduloId: string, l1: seq<string>, l2: seq<string>)
    requires forall x :: x in l1 ==> x in l2
    ensures CalcularProgressoModulo(catalog, moduloId, l1) <= CalcularProgressoModulo(catalog, moduloId, l2)
  {
    match GetModuloById(catalog, moduloId)
    case None =>
    case Some(m) =>
      if |m.licoes| > 0 {
        ContarMonotono(m.licoes, l1, l2);
        PercentualMonotone(ContarConcluidas(m.licoes, l1), ContarConcluidas(m.licoes, l2), |m.licoes|);
      }
  }

  /** `isModuloCompleto`: the module exists and all its lessons are in the list. */
  function IsModuloCompleto(catalog: seq<Modulo>, moduloId: string, completedLessons: seq<string>): (b: bool)
    ensures b <==>
      GetModuloById(catalog, moduloId).Some? &&
      TodasConcluidas(GetModuloById(catalog, moduloId).value.licoes, completedLessons)
  {
    match GetModuloById(catalog, moduloId)
    case None => false
    case Some(m) => forall l :: l in m.licoes ==> l.id in completedLessons
  }

  /** A complete module with lessons is at 100%; a module without lessons is
      complete and at 0%. */
  lemma CompletoImplicaCem(catalog: seq<Modulo>, moduloId: string, completedLessons: seq<string>)
    requires IsModuloCompleto(catalog, moduloId, completedLessons)
    ensures GetModuloById(catalog, moduloId).value.licoes != [] ==>
      CalcularProgressoModulo(catalog, moduloId, completedLessons) == 100
    ensures GetModuloById(catalog, moduloId).value.licoes == [] ==>
      CalcularProgressoModulo(catalog, moduloId, completedLessons) == 0
  {
    var m := GetModuloById(catalog, moduloId).value;
    if m.licoes != [] {
      PercentualBounds(|m.licoes|, |m.licoes|);
    }
  }

  /** A module that exists and has no lessons is complete for every list. */
  lemma ModuloVazioCompleto(catalog: seq<Modulo>, moduloId: string, completedLessons: seq<string>)
    requires GetModuloById(catalog, moduloId).Some? && GetModuloById(catalog, moduloId).value.licoes == []
    ensures IsModuloCompleto(catalog, moduloId, completedLessons)
  {
  }

  // ------------------------------------------------------------ navigation

  /** `getLicaoAnterior`. */
  function GetLicaoAnterior(catalog: seq<Modulo>, moduloId: string, licaoId: string): (r: Option<Posicao>)
    ensures r.Some? ==> PosicaoExiste(catalog, r.value)
  {
    match GetModuloById(catalog, moduloId)
    case None => None
    case Some(atual) =>
      var i := IndiceLicao(atual.licoes, licaoId);
      if i > 0 then
        assert PosicaoNoModulo(atual, Posicao(moduloId, atual.licoes[i - 1].id), i - 1);
        Some(Posicao(moduloId, atual.licoes[i - 1].id))
      else
        match ModuloDeOrdem(catalog, atual.ordem - 1)
        case Some(anterior) =>
          if |anterior.licoes| > 0 then
            var p := Posicao(anterior.id, anterior.licoes[|anterior.licoes| - 1].id);
            assert PosicaoNoModulo(anterior, p, |anterior.licoes| - 1);
            Some(p)
          else None
        case None => None
  }

  /** `getLicaoProxima`. */
  function GetLicaoProxima(catalog: seq<Modulo>, moduloId: string, licaoId: string): (r: Option<Posicao>)
    ensures r.Some? ==> PosicaoExiste(catalog, r.value)
  {
    match GetModuloById(catalog, moduloId)
    case None => None
    case Some(atual) =>
      var i := IndiceLicao(atual.licoes, licaoId);
      if i < |atual.licoes| - 1 then
        assert PosicaoNoModulo(atual, Posicao(moduloId, atual.licoes[i + 1].id), i + 1);
        Some(Posicao(moduloId, atual.licoes[i + 1].id))
      else
        match ModuloDeOrdem(catalog, atual.ordem + 1)
        case Some(proximo) =>
          if |proximo.licoes| > 0 then
            var p := Posicao(proximo.id, proximo.licoes[0].id);
            assert PosicaoNoModulo(proximo, p, 0);
            Some(p)
          else None
        case None => None
  }

  /** `p` names lesson `j` of module `m`. */
  predicate PosicaoNoModulo(m: Modulo, p: Posicao, j: int)
  {
    0 <= j < |m.licoes| && m.id == p.moduloId && m.licoes[j].id == p.licaoId
  }

  /** `p` names a module of the catalog and one of its lessons. */
  ghost predicate PosicaoExiste(catalog: seq<Modulo>, p: Posicao)
  {
    exists m, j :: m in catalog && PosicaoNoModulo(m, p, j)
  }

  /** Stepping back then forward returns to the same lesson. */
  lemma ProximaDaAnterior(catalog: seq<Modulo>, k: nat, i: nat)
    requires CatalogoBemFormado(catalog) && k < |catalog| && i < |catalog[k].licoes|
    requires GetLicaoAnterior(catalog, catalog[k].id, catalog[k].licoes[i].id).Some?
    ensures var p := GetLicaoAnterior(catalog, catalog[k].id, catalog[k].licoes[i].id).value;
      GetLicaoProxima(catalog, p.moduloId, p.licaoId) == Some(Posicao(catalog[k].id, catalog[k].licoes[i].id))
  {
    if i > 0 {
      PassoDentroDoModulo(catalog, k, i);
      PassoDentroDoModulo(catalog, k, i - 1);
    } else {
      ProximaDaAnteriorEntreModulos(catalog, k);
    }
  }

  lemma ProximaDaAnteriorEntreModulos(catalog: seq<Modulo>, k: nat)
    requires CatalogoBemFormado(catalog) && k < |catalog| && catalog[k].licoes != []
    requires GetLicaoAnterior(catalog, catalog[k].id, catalog[k].licoes[0].id).Some?
    ensures var p := GetLicaoAnterior(catalog, catalog[k].id, catalog[k].licoes[0].id).value;
      GetLicaoProxima(catalog, p.moduloId, p.licaoId) == Some(Posicao(catalog[k].id, catalog[k].licoes[0].id))
  {
    var a := IndiceOrdem(catalog, catalog[k].ordem - 1);
    assert 0 <= a && catalog[a].licoes != [] by {
      AnteriorNoPrimeiro(catalog, k);
    }
    AnteriorDoPrimeiro(catalog, k, a);
    ProximoDoUltimo(catalog, a, k);
  }

  /** Stepping forward then back returns to the same lesson. */
  lemma AnteriorDaProxima(catalog: seq<Modulo>, k: nat, i: nat)
    requires CatalogoBemFormado(catalog) && k < |catalog| && i < |catalog[k].licoes|
    requires GetLicaoProxima(catalog, catalog[k].id, catalog[k].licoes[i].id).Some?
    ensures var p := GetLicaoProxima(catalog, catalog[k].id, catalog[k].licoes[i].id).value;
      GetLicaoAnterior(catalog, p.moduloId, p.licaoId) == Some(Posicao(catalog[k].id, catalog[k].licoes[i].id))
  {
    if i < |catalog[k].licoes| - 1 {
      PassoDentroDoModulo(catalog, k, i);
      PassoDentroDoModulo(catalog, k, i + 1);
    } else {
      AnteriorDaProximaEntreModulos(catalog, k);
    }
  }

  lemma AnteriorDaProximaEntreModulos(catalog: seq<Modulo>, k: nat)
    requires CatalogoBemFormado(catalog) && k < |catalog| && catalog[k].licoes != []
    requires GetLicaoProxima(catalog, catalog[k].id, catalog[k].licoes[|catalog[k].licoes| - 1].id).Some?
    ensures var p := GetLicaoProxima(catalog, catalog[k].id, catalog[k].licoes[|catalog[k].licoes| - 1].id).value;
      GetLicaoAnterior(catalog, p.moduloId, p.licaoId) == Some(Posicao(catalog[k].id, catalog[k].licoes[|catalog[k].licoes| - 1].id))
  {
    ProximaNoUltimo(catalog, k);
    var a := IndiceOrdem(catalog, catalog[k].ordem + 1);
    AnteriorDoPrimeiro(catalog, a, k);
  }

  /** The first lesson of module `a` is preceded by the last lesson of the
      module `k` of the previous order. */
  lemma AnteriorDoPrimeiro(catalog: seq<Modulo>, a: nat, k: nat)
    requires CatalogoBemFormado(catalog) && a < |catalog| && k < |catalog|
    requires catalog[a].ordem == catalog[k].ordem + 1 && catalog[a].licoes != [] && catalog[k].licoes != []
    ensures GetLicaoAnterior(catalog, catalog[a].id, catalog[a].licoes[0].id) ==
      Some(Posicao(catalog[k].id, catalog[k].licoes[|catalog[k].licoes| - 1].id))
  {
    AnteriorNoPrimeiro(catalog, a);
    ModuloDeOrdemUnico(catalog, k);
  }

  /** The last lesson of module `a` is followed by the first lesson of the
      module `k` of the next order. */
  lemma ProximoDoUltimo(catalog: seq<Modulo>, a: nat, k: nat)
    requires CatalogoBemFormado(catalog) && a < |catalog| && k < |catalog|
    requires catalog[k].ordem == catalog[a].ordem + 1 && catalog[a].licoes != [] && catalog[k].licoes != []
    ensures GetLicaoProxima(catalog, catalog[a].id, catalog[a].licoes[|catalog[a].licoes| - 1].id) ==
      Some(Posicao(catalog[k].id, catalog[k].licoes[0].id))
  {
    ProximaNoUltimo(catalog, a);
    ModuloDeOrdemUnico(catalog, k);
  }

  /** From the last lesson of module `k`, "next" is the first lesson of the
      module of the next order, when there is one with lessons. */
  lemma ProximaNoUltimo(catalog: seq<Modulo>, k: nat)
    requires CatalogoBemFormado(catalog) && k < |catalog| && catalog[k].licoes != []
    ensures var a := IndiceOrdem(catalog, catalog[k].ordem + 1);
      GetLicaoProxima(catalog, catalog[k].id, catalog[k].licoes[|catalog[k].licoes| - 1].id) ==
      if a >= 0 && catalog[a].licoes != [] then Some(Posicao(catalog[a].id, catalog[a].licoes[0].id)) else None
  {
    var m := catalog[k];
    var a := IndiceOrdem(catalog, m.ordem + 1);
    GetModuloByIdFindsEach(catalog, k);
    IndiceLicaoOfEach(m.licoes, |m.licoes| - 1);
    assert ModuloDeOrdem(catalog, m.ordem + 1) == if a < 0 then None else Some(catalog[a]);
  }

  /** From the first lesson of module `k`, "previous" is the last lesson of
      the module of the previous order, when there is one with lessons. */
  lemma AnteriorNoPrimeiro(catalog: seq<Modulo>, k: nat)
    requires CatalogoBemFormado(catalog) && k < |catalog| && catalog[k].licoes != []
    ensures var a := IndiceOrdem(catalog, catalog[k].ordem - 1);
      GetLicaoAnterior(catalog, catalog[k].id, catalog[k].licoes[0].id) ==
      if a >= 0 && catalog[a].licoes != [] then Some(Posicao(catalog[a].id, catalog[a].licoes[|catalog[a].licoes| - 1].id)) else None
  {
    var m := catalog[k];
    var a := IndiceOrdem(catalog, m.ordem - 1);
    GetModuloByIdFindsEach(catalog, k);
    IndiceLicaoOfEach(m.licoes, 0);
    assert ModuloDeOrdem(catalog, m.ordem - 1) == if a < 0 then None else Some(catalog[a]);
  }

  /** Inside a module both steps move by one position. */
  lemma PassoDentroDoModulo(catalog: seq<Modulo>, k: nat, i: nat)
    requires CatalogoBemFormado(catalog) && k < |catalog| && i < |catalog[k].licoes|
    ensures i > 0 ==>
      GetLicaoAnterior(catalog, catalog[k].id, catalog[k].licoes[i].id) ==
      Some(Posicao(catalog[k].id, catalog[k].licoes[i - 1].id))
    ensures i + 1 < |catalog[k].licoes| ==>
      GetLicaoProxima(catalog, catalog[k].id, catalog[k].licoes[i].id) ==
      Some(Posicao(catalog[k].id, catalog[k].licoes[i + 1].id))
  {
    GetModuloByIdFindsEach(catalog, k);
    IndiceLicaoOfEach(catalog[k].licoes, i);
  }

  /** At the first lesson of a module with no module of the order below there
      is no previous lesson; at the last lesson of a module with no module of
      the order above there is no next one. */
  lemma NuloNasPontas(catalog: seq<Modulo>, k: nat)
    requires CatalogoBemFormado(catalog) && k < |catalog| && catalog[k].licoes != []
    ensures (forall j :: 0 <= j < |catalog| ==> catalog[j].ordem != catalog[k].ordem - 1) ==>
      GetLicaoAnterior(catalog, catalog[k].id, catalog[k].licoes[0].id).None?
    ensures (forall j :: 0 <= j < |catalog| ==> catalog[j].ordem != catalog[k].ordem + 1) ==>
      GetLicaoProxima(catalog, catalog[k].id, catalog[k].licoes[|catalog[k].licoes| - 1].id).None?
  {
    GetModuloByIdFindsEach(catalog, k);
    IndiceLicaoOfEach(catalog[k].licoes, 0);
    IndiceLicaoOfEach(catalog[k].licoes, |catalog[k].licoes| - 1);
  }

  /** An id that is not a lesson of a non-empty module makes "next" go to the
      module's first lesson (its index is -1, which is below the last index). */
  lemma ProximaDeLicaoDesconhecida(catalog: seq<Modulo>, k: nat, licaoId: string)
    requires IdsModulosUnicos(catalog) && k < |catalog| && catalog[k].licoes != []
    requires forall j :: 0 <= j < |catalog[k].licoes| ==> catalog[k].licoes[j].id != licaoId
    ensures GetLicaoProxima(catalog, catalog[k].id, licaoId) == Some(Posicao(catalog[k].id, catalog[k].licoes[0].id))
  {
    GetModuloByIdFindsEach(catalog, k);
  }

  // ------------------------------------------------------------ formatting

  /** `formatarTempo`: "N min" below an hour, else "Hh" or "Hh Mmin". */
  function FormatarTempo(minutos: int): (s: string)
    ensures minutos < 60 ==> s == IntToString(minutos) + " min"
  {
    if minutos < 60 then IntToString(minutos) + " min"
    else
      var horas := minutos / 60;
      var mins := minutos % 60;
      if mins == 0 then IntToString(horas) + "h"
      else IntToString(horas) + "h " + IntToString(mins) + "min"
  }

  predicate EndsWith(s: string, suffix: string)
  {
    |suffix| <= |s| && s[|s| - |suffix|..] == suffix
  }

  /** Reads a duration back from the text `formatarTempo` produces. */
  function LerTempo(s: string): (r: Option<int>)
  {
    if EndsWith(s, " min") && IsIntString(s[..|s| - 4]) then Some(ParseInt(s[..|s| - 4]))
    else if EndsWith(s, "min") then
      var i := IndexOf(s, 'h');
      if 0 <= i && i + 2 <= |s| - 3 && s[i + 1] == ' ' && IsIntString(s[..i]) && IsIntString(s[i + 2..|s| - 3])
      then Some(60 * ParseInt(s[..i]) + ParseInt(s[i + 2..|s| - 3]))
      else None
    else if EndsWith(s, "h") && IsIntString(s[..|s| - 1]) then Some(60 * ParseInt(s[..|s| - 1]))
    else None
  }

  /** The formatted text determines the number of minutes: hours times 60
      plus the minutes shown (none shown when they are 0) give the input. */
  lemma FormatarTempoInvertivel(minutos: int)
    ensures LerTempo(FormatarTempo(minutos)) == Some(minutos)
  {
    var s := FormatarTempo(minutos);
    if minutos < 60 {
      assert s == IntToString(minutos) + " min";
      LerMinutos(minutos);
    } else if minutos % 60 == 0 {
      assert s == IntToString(minutos / 60) + "h";
      LerHoras(minutos / 60);
    } else {
      assert s == IntToString(minutos / 60) + "h " + IntToString(minutos % 60) + "min";
      LerHorasMinutos(minutos / 60, minutos % 60);
    }
  }

  /** From an hour up the text shows the whole hours, at least one, and the
      minutes left over, below 60 and omitted when there are none. */
  lemma FormatarTempoHorasMinutos(h: nat, m: nat)
    requires h >= 1 && m < 60
    ensures FormatarTempo(60 * h + m) ==
      if m == 0 then IntToString(h) + "h" else IntToString(h) + "h " + IntToString(m) + "min"
  {
    var minutos := 60 * h + m;
    assert minutos / 60 == h && minutos % 60 == m;
  }

  /** From an hour up, the minutes part is written exactly when the minutes
      are not a whole number of hours. */
  lemma MinutosOmitidosSse(minutos: int)
    requires minutos >= 60
    ensures EndsWith(FormatarTempo(minutos), "min") <==> minutos % 60 != 0
  {
    var s := FormatarTempo(minutos);
    if minutos % 60 == 0 {
      assert s[|s| - 1] == 'h';
    } else {
      assert s[|s| - 3..] == "min";
    }
  }

  lemma LerMinutos(n: int)
    ensures LerTempo(IntToString(n) + " min") == Some(n)
  {
    var s := IntToString(n) + " min";
    assert s[..|s| - 4] == IntToString(n);
    ParseIntToString(n);
  }

  lemma LerHoras(h: nat)
    requires h >= 1
    ensures LerTempo(IntToString(h) + "h") == Some(60 * h)
  {
    var s := IntToString(h) + "h";
    assert s[|s| - 1] == 'h';
    assert !EndsWith(s, " min") && !EndsWith(s, "min");
    assert s[..|s| - 1] == IntToString(h);
    ParseIntToString(h);
  }

  lemma LerHorasMinutos(h: nat, m: nat)
    requires h >= 1 && 1 <= m < 60
    ensures LerTempo(IntToString(h) + "h " + IntToString(m) + "min") == Some(60 * h + m)
  {
    var hs, ms := NatToString(h), NatToString(m);
    var s := hs + "h " + ms + "min";
    assert IntToString(h) + "h " + IntToString(m) + "min" == s;
    assert s[|s| - 4] == ms[|ms| - 1];
    assert !EndsWith(s, " min");
    assert EndsWith(s, "min");
    assert s[|hs|] == 'h';
    assert forall k :: 0 <= k < |hs| ==> s[k] == hs[k];
    var i := IndexOf(s, 'h');
    assert i == |hs|;
    assert s[..i] == hs && s[i + 1] == ' ';
    assert s[i + 2..|s| - 3] == ms;
    ParseIntToString(h);
    ParseIntToString(m);
  }
}
