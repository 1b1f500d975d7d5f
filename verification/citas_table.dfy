/**
 * The table under the filters: the status badge of each row and the pagination
 * bar (previous, one button per page, next) that asks the page to change.
 */
module CitasTable {
  import opened Citas

  /** The badge of a status: background class, text class and caption. */
  datatype Badge = Badge(bg: string, text: string, caption: string)

  const ProgramadaBadge: Badge := Badge("bg-yellow-100", "text-yellow-800", "Programada")
  const ConfirmadaBadge: Badge := Badge("bg-green-100", "text-green-800", "Confirmada")
  const CanceladaBadge: Badge := Badge("bg-red-100", "text-red-800", "Cancelada")
  const CompletadaBadge: Badge := Badge("bg-purple-100", "text-purple-800", "Completada")

  /** `getStatusBadge(estado)`: the four statuses have their own badge; any other string shows as scheduled. */
  function StatusBadge(estado: string): (b: Badge)
    ensures estado == Programada ==> b.caption == "Programada"
    ensures estado == Confirmada ==> b.caption == "Confirmada"
    ensures estado == Cancelada ==> b.caption == "Cancelada"
    ensures estado == Completada ==> b.caption == "Completada"
    ensures !KnownStatus(estado) ==> b == ProgramadaBadge
  {
    if estado == Confirmada then ConfirmadaBadge
    else if estado == Cancelada then CanceladaBadge
    else if estado == Completada then CompletadaBadge
    else ProgramadaBadge
  }

  /** The four badges are distinct, so a known status is shown faithfully: two statuses share a label only if they are equal or one is unknown. */
  lemma BadgeLabelsDistinguishStatuses(a: string, b: string)
    requires KnownStatus(a) && KnownStatus(b)
    ensures StatusBadge(a).caption == StatusBadge(b).caption <==> a == b
  {
  }

  /** The pagination bar is shown only when there is more than one page. */
  predicate PaginationVisible(totalPages: int)
  {
    totalPages > 1
  }

  /** The bar's buttons: previous, page `n`, next. */
  datatype Control = PrevPage | NextPage | Page(n: int)

  /** Previous is disabled on page 1 and next on the last page; page buttons are never disabled. */
  predicate Enabled(c: Control, currentPage: int, totalPages: int)
  {
    match c
    case PrevPage => currentPage != 1
    case NextPage => currentPage != totalPages
    case Page(_) => true
  }

  /** The page each button asks for. */
  function Target(c: Control, currentPage: int): (p: int)
    ensures c.PrevPage? ==> p == currentPage - 1
    ensures c.NextPage? ==> p == currentPage + 1
    ensures c.Page? ==> p == c.n
  {
    match c
    case PrevPage => currentPage - 1
    case NextPage => currentPage + 1
    case Page(n) => n
  }

  /** The page buttons: pages 1 to `totalPages`, each with whether it is the current one. */
  function PageButtons(currentPage: int, totalPages: nat): (buttons: seq<(int, bool)>)
    ensures |buttons| == totalPages
    ensures forall i | 0 <= i < totalPages :: buttons[i].0 == i + 1
    ensures forall i | 0 <= i < totalPages :: buttons[i].1 <==> i + 1 == currentPage
  {
    seq(totalPages, i requires 0 <= i < totalPages => (i + 1, i + 1 == currentPage))
  }

  /** The controls on screen: previous, the page buttons, next. */
  function Controls(totalPages: nat): (cs: seq<Control>)
    ensures |cs| == totalPages + 2
  {
    [PrevPage] + seq(totalPages, i requires 0 <= i < totalPages => Page(i + 1)) + [NextPage]
  }

  /** Exactly one page button is marked current when the current page is in range, and none otherwise. */
  lemma ExactlyOneCurrent(currentPage: int, totalPages: nat)
    ensures var bs := PageButtons(currentPage, totalPages);
            (1 <= currentPage <= totalPages ==> bs[currentPage - 1].1 && forall i | 0 <= i < totalPages && i != currentPage - 1 :: !bs[i].1)
            && (!(1 <= currentPage <= totalPages) ==> forall i | 0 <= i < totalPages :: !bs[i].1)
  {
  }

  /** From a page in range, every enabled control asks for a page in range. */
  lemma ControlsStayInRange(currentPage: int, totalPages: nat, k: int)
    requires 1 <= currentPage <= totalPages && 0 <= k < totalPages + 2
    requires Enabled(Controls(totalPages)[k], currentPage, totalPages)
    ensures 1 <= Target(Controls(totalPages)[k], currentPage) <= totalPages
  {
  }

  /** Out of range, previous and next are not enough to stop the page from drifting: from page 0 "previous" asks for -1. */
  lemma PrevOnlyGuardsPageOne()
    ensures Enabled(PrevPage, 0, 3) && Target(PrevPage, 0) == -1
  {
  }
}
