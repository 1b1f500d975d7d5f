/**
 * The appointments page: the list of citas, the search box and the status
 * select that narrow it, the five counters over the whole list, the ten-per-page
 * table, and the handlers that add, replace and remove citas.
 *
 * Every handler is a pure transition of `PageState`. The filtering effect,
 * which React runs after any change of the search term, the status filter or the
 * list, is applied inside the handler that makes the change. Fresh ids
 * (`Date.now()`) and creation dates are parameters.
 */
module CitasPage {
  import opened Options
  import opened Text
  import opened Seqs
  import opened Citas
  import CitasTable

  /** The mock records loaded on mount. */
  const Seed: seq<Cita> := [
    Cita(1, "2024-01-10", CitaData("Juan Pérez", "+57 300 123 4567", "juan.perez@email.com", "2024-01-15", "10:00",
      "Casa en El Poblado", "Cliente interesado en propiedades de lujo", Programada), None),
    Cita(2, "2024-01-11", CitaData("María González", "+57 301 234 5678", "maria.gonzalez@email.com", "2024-01-16", "14:30",
      "Apartamento en Laureles", "Primera visita, cliente muy interesado", Confirmada), None),
    Cita(3, "2024-01-09", CitaData("Carlos Rodríguez", "+57 302 345 6789", "carlos.rodriguez@email.com", "2024-01-14", "09:00",
      "Local Comercial Centro", "Visita exitosa, cliente decidió comprar", Completada), None),
    Cita(4, "2024-01-08", CitaData("Ana Martínez", "+57 303 456 7890", "ana.martinez@email.com", "2024-01-13", "16:00",
      "Casa Campestre", "Cliente canceló por motivos personales", Cancelada), None)
  ]

  const ItemsPerPage: nat := 10

  /** The status select's "every status" option. */
  const All: string := "all"

  // ---------------------------------------------------------------- filtering

  /** The search test: the lower-cased term occurs in the lower-cased client name, property or email. */
  predicate MatchesSearch(term: string, c: Cita)
  {
    var t := Lower(term);
    Contains(Lower(c.data.cliente), t) || Contains(Lower(c.data.propiedad), t) || Contains(Lower(c.data.email), t)
  }

  function SearchTest(term: string): Cita -> bool
  {
    (c: Cita) => MatchesSearch(term, c)
  }

  function StatusTest(status: string): Cita -> bool
  {
    (c: Cita) => c.data.estado == status
  }

  /** What the two filters keep together: an empty term keeps everything, and so does "all". */
  predicate Kept(term: string, status: string, c: Cita)
  {
    (term == "" || MatchesSearch(term, c)) && (status == All || c.data.estado == status)
  }

  function KeptTest(term: string, status: string): Cita -> bool
  {
    (c: Cita) => Kept(term, status, c)
  }

  /** The filtering effect: by search term when there is one, then by status unless it is "all". */
  function FilterCitas(citas: seq<Cita>, term: string, status: string): (r: seq<Cita>)
    ensures forall k | 0 <= k < |r| :: r[k] in citas && Kept(term, status, r[k])
    ensures forall k | 0 <= k < |citas| :: Kept(term, status, citas[k]) ==> citas[k] in r
  {
    var bySearch := if term != "" then Filter(SearchTest(term), citas) else citas;
    if status != All then Filter(StatusTest(status), bySearch) else bySearch
  }

  /** The two-stage filter is a single order-preserving filter by `Kept`. */
  lemma FilterCitasIsOneFilter(citas: seq<Cita>, term: string, status: string)
    ensures FilterCitas(citas, term, status) == Filter(KeptTest(term, status), citas)
    ensures IsSubsequence(FilterCitas(citas, term, status), citas)
  {
    var kept := KeptTest(term, status);
    if term != "" && status != All {
      FilterTwice(SearchTest(term), StatusTest(status), kept, citas);
    } else if term != "" {
      FilterAgree(SearchTest(term), kept, citas);
    } else if status != All {
      FilterAgree(StatusTest(status), kept, citas);
    } else {
      FilterKeepsAll(kept, citas);
    }
    FilterIsSubsequence(kept, citas);
  }

  /** With an empty term and "all", the whole list is shown. */
  lemma NoFilterShowsAll(citas: seq<Cita>)
    ensures FilterCitas(citas, "", All) == citas
  {
  }

  // ---------------------------------------------------------------- counters

  /** The five counters above the table. */
  datatype Stats = Stats(total: nat, programadas: nat, confirmadas: nat, canceladas: nat, completadas: nat)

  function CountStatus(citas: seq<Cita>, status: string): (n: nat)
    ensures n <= |citas|
  {
    |Filter(StatusTest(status), citas)|
  }

  /** `stats`: counted over the whole list, whatever the filters. */
  function ComputeStats(citas: seq<Cita>): (s: Stats)
    ensures s.total == |citas|
    ensures s.programadas == |FilterCitas(citas, "", Programada)|
    ensures s.confirmadas == |FilterCitas(citas, "", Confirmada)|
    ensures s.canceladas == |FilterCitas(citas, "", Cancelada)|
    ensures s.completadas == |FilterCitas(citas, "", Completada)|
  {
    Stats(|citas|, CountStatus(citas, Programada), CountStatus(citas, Confirmada),
      CountStatus(citas, Cancelada), CountStatus(citas, Completada))
  }

  /** When every cita has one of the four statuses, the four counters add up to the total. */
  lemma {:induction false} StatsSumToTotal(citas: seq<Cita>)
    requires forall k | 0 <= k < |citas| :: KnownStatus(citas[k].data.estado)
    ensures var s := ComputeStats(citas);
            s.programadas + s.confirmadas + s.canceladas + s.completadas == s.total
  {
    if |citas| > 0 {
      StatsSumToTotal(citas[1..]);
    }
  }

  /** How many of four elements pass a test. */
  lemma FilterFourCount<T>(p: T -> bool, s: seq<T>)
    requires |s| == 4
    ensures |Filter(p, s)| == (if p(s[0]) then 1 else 0) + (if p(s[1]) then 1 else 0)
                              + (if p(s[2]) then 1 else 0) + (if p(s[3]) then 1 else 0)
  {
    var s1, s2, s3 := s[1..], s[2..], s[3..];
    assert s1[1..] == s2 && s2[1..] == s3 && s3[1..] == [];
    assert |Filter(p, s3)| == if p(s[3]) then 1 else 0;
    assert |Filter(p, s2)| == (if p(s[2]) then 1 else 0) + |Filter(p, s3)|;
    assert |Filter(p, s1)| == (if p(s[1]) then 1 else 0) + |Filter(p, s2)|;
  }

  /** The statuses of the mock records, in order. */
  lemma SeedStatuses()
    ensures |Seed| == 4
    ensures Seed[0].data.estado == Programada && Seed[1].data.estado == Confirmada
    ensures Seed[2].data.estado == Completada && Seed[3].data.estado == Cancelada
  {
  }

  /** The mock data has one cita of each status. */
  lemma SeedStats()
    ensures ComputeStats(Seed) == Stats(4, 1, 1, 1, 1)
  {
    SeedStatuses();
    FilterFourCount(StatusTest(Programada), Seed);
    FilterFourCount(StatusTest(Confirmada), Seed);
    FilterFourCount(StatusTest(Cancelada), Seed);
    FilterFourCount(StatusTest(Completada), Seed);
  }

  // ---------------------------------------------------------------- pagination

  /** `filteredCitas.slice((page - 1) * 10, page * 10)`. */
  function CurrentItems(filtered: seq<Cita>, page: int): (items: seq<Cita>)
    ensures |items| <= ItemsPerPage
    ensures 1 <= page ==> items == filtered[Min((page - 1) * ItemsPerPage, |filtered|)..Min(page * ItemsPerPage, |filtered|)]
  {
    Slice(filtered, (page - 1) * ItemsPerPage, page * ItemsPerPage)
  }

  /** `Math.ceil(filteredCitas.length / 10)`. */
  function TotalPages(filtered: seq<Cita>): (n: nat)
    ensures (n - 1) * ItemsPerPage < |filtered| <= n * ItemsPerPage || (n == 0 && |filtered| == 0)
  {
    CeilDiv(|filtered|, ItemsPerPage)
  }

  /** Cita `i` of the filtered list is shown on page `i / 10 + 1`, at row `i % 10`; that page exists. */
  lemma EveryCitaOnItsPage(filtered: seq<Cita>, i: int)
    requires 0 <= i < |filtered|
    ensures var page := i / ItemsPerPage + 1;
            && 1 <= page <= TotalPages(filtered)
            && i % ItemsPerPage < |CurrentItems(filtered, page)|
            && CurrentItems(filtered, page)[i % ItemsPerPage] == filtered[i]
  {
    var page := i / ItemsPerPage + 1;
    assert (page - 1) * ItemsPerPage + i % ItemsPerPage == i;
  }

  /** Pages 1 to `TotalPages` are non-empty; pages after the last are empty. */
  lemma PagesInRangeAreNonEmpty(filtered: seq<Cita>, page: int)
    requires 1 <= page
    ensures |CurrentItems(filtered, page)| > 0 <==> page <= TotalPages(filtered)
  {
    var n := TotalPages(filtered);
    if page <= n {
      assert (page - 1) * ItemsPerPage <= (n - 1) * ItemsPerPage;
    } else {
      assert n * ItemsPerPage <= (page - 1) * ItemsPerPage;
    }
  }

  // ---------------------------------------------------------------- list updates

  /** `prev.map(c => c.id === u.id ? u : c)`. */
  function ReplaceById(citas: seq<Cita>, u: Cita): (r: seq<Cita>)
    ensures |r| == |citas|
    ensures forall k | 0 <= k < |citas| :: r[k] == if citas[k].id == u.id then u else citas[k]
  {
    seq(|citas|, k requires 0 <= k < |citas| => if citas[k].id == u.id then u else citas[k])
  }

  function IdIsNot(id: int): Cita -> bool
  {
    (c: Cita) => c.id != id
  }

  /** `prev.filter(c => c.id !== id)`. */
  function RemoveById(citas: seq<Cita>, id: int): (r: seq<Cita>)
    ensures forall k | 0 <= k < |r| :: r[k] in citas && r[k].id != id
    ensures forall k | 0 <= k < |citas| :: citas[k].id != id ==> citas[k] in r
  {
    Filter(IdIsNot(id), citas)
  }

  /** No two citas share an id. */
  predicate UniqueIds(citas: seq<Cita>)
  {
    forall i, j | 0 <= i < j < |citas| :: citas[i].id != citas[j].id
  }

  /** With unique ids, replacing by the id of cita `k` is a point update at `k`. */
  lemma ReplaceIsPointUpdate(citas: seq<Cita>, u: Cita, k: int)
    requires UniqueIds(citas) && 0 <= k < |citas| && citas[k].id == u.id
    ensures ReplaceById(citas, u) == citas[k := u]
    ensures UniqueIds(ReplaceById(citas, u))
  {
    var r := ReplaceById(citas, u);
    forall i | 0 <= i < |citas|
      ensures r[i] == citas[k := u][i]
    {
      if i != k {
        assert citas[i].id != citas[k].id;
      }
    }
  }

  /** An id that no cita has leaves the list as it was. */
  lemma ReplaceUnknownIdChangesNothing(citas: seq<Cita>, u: Cita)
    requires forall k | 0 <= k < |citas| :: citas[k].id != u.id
    ensures ReplaceById(citas, u) == citas
  {
  }

  /** With unique ids, removing the id of cita `k` cuts exactly that cita out. */
  lemma RemoveIsCut(citas: seq<Cita>, k: int)
    requires UniqueIds(citas) && 0 <= k < |citas|
    ensures RemoveById(citas, citas[k].id) == citas[..k] + citas[k + 1..]
  {
    var id := citas[k].id;
    var p := IdIsNot(id);
    assert citas == citas[..k] + ([citas[k]] + citas[k + 1..]);
    FilterAppend(p, citas[..k], [citas[k]] + citas[k + 1..]);
    FilterAppend(p, [citas[k]], citas[k + 1..]);
    assert forall i | 0 <= i < |citas[..k]| :: p(citas[..k][i]) by {
      forall i | 0 <= i < |citas[..k]|
        ensures p(citas[..k][i])
      {
        assert citas[..k][i] == citas[i];
      }
    }
    FilterKeepsAll(p, citas[..k]);
    var tail := citas[k + 1..];
    assert forall i | 0 <= i < |tail| :: p(tail[i]) by {
      forall i | 0 <= i < |tail|
        ensures p(tail[i])
      {
        assert tail[i] == citas[k + 1 + i];
      }
    }
    FilterKeepsAll(p, citas[k + 1..]);
  }

  /** Removing keeps the ids unique. */
  lemma {:induction false} RemoveKeepsUnique(citas: seq<Cita>, id: int)
    requires UniqueIds(citas)
    ensures UniqueIds(RemoveById(citas, id))
  {
    if |citas| > 0 {
      RemoveKeepsUnique(citas[1..], id);
      var rest := RemoveById(citas[1..], id);
      assert forall k | 0 <= k < |rest| :: rest[k].id != citas[0].id by {
        forall k | 0 <= k < |rest|
          ensures rest[k].id != citas[0].id
        {
          var j :| 0 <= j < |citas[1..]| && citas[1..][j] == rest[k];
          assert citas[j + 1] == rest[k];
        }
      }
    }
  }

  // ---------------------------------------------------------------- the page

  /** The page's state: the list, the two filters, the current page and the filtered list. */
  datatype PageState = PageState(citas: seq<Cita>, searchTerm: string, statusFilter: string, currentPage: int, filtered: seq<Cita>)

  /** The filtered list is the one the filtering effect computes. */
  predicate Consistent(s: PageState)
  {
    s.filtered == FilterCitas(s.citas, s.searchTerm, s.statusFilter)
  }

  /** The filtering effect: recompute the filtered list and go back to page 1. */
  function Refilter(s: PageState): (r: PageState)
    ensures Consistent(r) && r.currentPage == 1
    ensures r.citas == s.citas && r.searchTerm == s.searchTerm && r.statusFilter == s.statusFilter
  {
    s.(filtered := FilterCitas(s.citas, s.searchTerm, s.statusFilter), currentPage := 1)
  }

  /** On mount: the mock records, no search, every status, page 1, everything shown. */
  function Mount(): (s: PageState)
    ensures Consistent(s) && s.citas == Seed && s.filtered == Seed && s.currentPage == 1
  {
    Refilter(PageState(Seed, "", All, 1, Seed))
  }

  /** Typing into the search box: a different term refilters and returns to page 1; the same term changes nothing. */
  function SetSearchTerm(s: PageState, term: string): (r: PageState)
    ensures r.searchTerm == term && r.citas == s.citas && r.statusFilter == s.statusFilter
    ensures term != s.searchTerm ==> Consistent(r) && r.currentPage == 1
    ensures term == s.searchTerm ==> r == s
  {
    if term == s.searchTerm then s else Refilter(s.(searchTerm := term))
  }

  /** Choosing a status: a different one refilters and returns to page 1; the same one changes nothing. */
  function SetStatusFilter(s: PageState, status: string): (r: PageState)
    ensures r.statusFilter == status && r.citas == s.citas && r.searchTerm == s.searchTerm
    ensures status != s.statusFilter ==> Consistent(r) && r.currentPage == 1
    ensures status == s.statusFilter ==> r == s
  {
    if status == s.statusFilter then s else Refilter(s.(statusFilter := status))
  }

  /** `handleCreateCita`: the wizard's form, with the given id and creation date, is appended. */
  function HandleCreateCita(s: PageState, form: CitaData, id: int, fechaCreacion: string): (r: PageState)
    ensures r.citas == s.citas + [Cita(id, fechaCreacion, form, None)]
    ensures Consistent(r) && r.currentPage == 1
  {
    Refilter(s.(citas := s.citas + [Cita(id, fechaCreacion, form, None)]))
  }

  /** `handlePublicVisitSchedule`: the visit request, with the given id and creation date, is appended. */
  function HandlePublicVisitSchedule(s: PageState, visit: VisitRequest, id: int, fechaCreacion: string): (r: PageState)
    ensures |r.citas| == |s.citas| + 1 && r.citas[..|s.citas|] == s.citas
    ensures r.citas[|s.citas|] == Cita(id, fechaCreacion, visit.data, Some(visit.documento))
    ensures Consistent(r) && r.currentPage == 1
  {
    Refilter(s.(citas := s.citas + [Cita(id, fechaCreacion, visit.data, Some(visit.documento))]))
  }

  /** `handleEditCita`: every cita with the edited one's id is replaced by it. */
  function HandleEditCita(s: PageState, updated: Cita): (r: PageState)
    ensures r.citas == ReplaceById(s.citas, updated)
    ensures Consistent(r) && r.currentPage == 1
  {
    Refilter(s.(citas := ReplaceById(s.citas, updated)))
  }

  /** `handleDeleteCita`: every cita with the selected one's id is removed. */
  function HandleDeleteCita(s: PageState, selected: Cita): (r: PageState)
    ensures r.citas == RemoveById(s.citas, selected.id)
    ensures Consistent(r) && r.currentPage == 1
  {
    Refilter(s.(citas := RemoveById(s.citas, selected.id)))
  }

  /** The table's `onPageChange`: the page is set as asked, with no bound check. */
  function HandlePageChange(s: PageState, page: int): (r: PageState)
    ensures r.currentPage == page && r.citas == s.citas && r.filtered == s.filtered
    ensures Consistent(s) ==> Consistent(r)
  {
    s.(currentPage := page)
  }

  /** The rows on screen and the number of pages. */
  function View(s: PageState): (v: (seq<Cita>, nat))
    ensures |v.0| <= ItemsPerPage
  {
    (CurrentItems(s.filtered, s.currentPage), TotalPages(s.filtered))
  }

  /** Creating a cita with a fresh id keeps the ids unique. */
  lemma CreateKeepsUnique(s: PageState, form: CitaData, id: int, fechaCreacion: string)
    requires UniqueIds(s.citas) && forall k | 0 <= k < |s.citas| :: s.citas[k].id != id
    ensures UniqueIds(HandleCreateCita(s, form, id, fechaCreacion).citas)
  {
  }

  /** After a create, the new cita is listed when no filter is set. */
  lemma CreatedCitaIsListed(s: PageState, form: CitaData, id: int, fechaCreacion: string)
    requires s.searchTerm == "" && s.statusFilter == All
    ensures var r := HandleCreateCita(s, form, id, fechaCreacion);
            Cita(id, fechaCreacion, form, None) in r.filtered
  {
    var r := HandleCreateCita(s, form, id, fechaCreacion);
    assert r.citas[|s.citas|] == Cita(id, fechaCreacion, form, None);
  }

  /** With unique ids, deleting a listed cita cuts exactly that cita out of the list. */
  lemma DeleteRemovesOne(s: PageState, k: int)
    requires UniqueIds(s.citas) && 0 <= k < |s.citas|
    ensures HandleDeleteCita(s, s.citas[k]).citas == s.citas[..k] + s.citas[k + 1..]
    ensures UniqueIds(HandleDeleteCita(s, s.citas[k]).citas)
  {
    RemoveIsCut(s.citas, k);
    RemoveKeepsUnique(s.citas, s.citas[k].id);
  }

  /** Deleting a cita whose id no listed cita has leaves the list as it was. */
  lemma DeleteUnknownIdChangesNothing(s: PageState, selected: Cita)
    requires forall k | 0 <= k < |s.citas| :: s.citas[k].id != selected.id
    ensures HandleDeleteCita(s, selected).citas == s.citas
  {
    FilterKeepsAll(IdIsNot(selected.id), s.citas);
  }

  /** The pagination bar is hidden exactly when the filtered list fits on one page. */
  lemma PaginationHiddenIffOnePage(filtered: seq<Cita>)
    ensures !CitasTable.PaginationVisible(TotalPages(filtered)) <==> |filtered| <= ItemsPerPage
  {
  }

  /** The search already lower-cases its term, so typing it in capitals or not finds the same citas. */
  lemma SearchIgnoresTermCase(term: string, c: Cita)
    ensures MatchesSearch(Lower(term), c) <==> MatchesSearch(term, c)
  {
    LowerIdempotent(term);
  }

  /** Choosing "confirmada" on the mock data shows María González's visit alone. */
  lemma SeedConfirmadas()
    ensures FilterCitas(Seed, "", Confirmada) == [Seed[1]]
  {
    SeedStatuses();
    var p := StatusTest(Confirmada);
    var s1, s2, s3 := Seed[1..], Seed[2..], Seed[3..];
    assert s1[1..] == s2 && s2[1..] == s3 && s3[1..] == [];
    assert Filter(p, s3) == [];
    assert Filter(p, s2) == [];
    assert Filter(p, s1) == [Seed[1]];
  }

  /** Searching "MARÍA" finds María González's visit: the comparison ignores case, accented capitals included. */
  lemma SeedSearchIgnoresCase()
    ensures Seed[1] in FilterCitas(Seed, "MARÍA", All)
  {
    var hay := Lower(Seed[1].data.cliente);
    var needle := Lower("MARÍA");
    assert needle == "maría";
    assert OccursAt(hay, needle, 0);
    assert Kept("MARÍA", All, Seed[1]);
  }
}
