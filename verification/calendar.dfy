/** The calendar status tag attached to each event for the client's
    colouring. */
module Calendar {

  const Success: string := "Success"
  const Danger: string := "Danger"

  /** The tag of a stored assignment: state 1 (confirmed) shows as a
      success, every other state (superseded or unknown) as a danger. */
  function CalendarTag(estado: int): (tag: string)
    ensures tag == Success <==> estado == 1
    ensures tag == Success || tag == Danger
  {
    if estado == 1 then Success else Danger
  }
}
