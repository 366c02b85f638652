/** `PaginationControls`: the Previous and Next buttons and the "page of total" label. */
module PaginationControls {
  import opened Wrappers
  import opened Text

  datatype Button = Previous | Next

  /** `disabled={page === 1}` and `disabled={page === totalPages || totalPages === 0}`. */
  predicate Disabled(button: Button, page: int, totalPages: int)
  {
    match button
    case Previous => page == 1
    case Next => page == totalPages || totalPages == 0
  }

  /** The page a click asks for: None when the button is disabled (a disabled button fires
      no click), otherwise one page back or forward. */
  function Click(button: Button, page: int, totalPages: int): (target: Option<int>)
    ensures target.None? <==> Disabled(button, page, totalPages)
    ensures target.Some? ==> target.value == page + (if button == Previous then -1 else 1)
  {
    if Disabled(button, page, totalPages) then None
    else match button
      case Previous => Some(page - 1)
      case Next => Some(page + 1)
  }

  /** The label between the buttons. */
  function Label(page: int, totalPages: int): string
  {
    if totalPages > 0 then IntToString(page) + " of " + IntToString(totalPages) else "0 of 0"
  }

  /** From a page within 1..totalPages every click that fires lands within 1..totalPages; at
      the first page Previous is off, at the last page Next is off. */
  lemma ClickStaysInRange(button: Button, page: int, totalPages: int)
    requires 1 <= page <= totalPages
    ensures Click(button, page, totalPages).Some? ==> 1 <= Click(button, page, totalPages).value <= totalPages
    ensures Click(Previous, page, totalPages).None? <==> page == 1
    ensures Click(Next, page, totalPages).None? <==> page == totalPages
  {
  }

  /** With no pages Next is off and the label reads "0 of 0". */
  lemma NoPages(page: int)
    ensures Click(Next, page, 0).None?
    ensures Label(page, 0) == "0 of 0"
  {
  }
}
