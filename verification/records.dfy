/** The record shapes the script reads from the API and the entries it reports. */
module Records {
  import opened Wrappers

  datatype Workplace = Workplace(id: int, name: string, status: int)

  /** `workerId` is `null` (None) for a shift nobody has taken. */
  datatype Shift = Shift(id: int, workplaceId: int, workerId: Option<int>)

  /** One ranked entry: a workplace name and its number of completed shifts. */
  datatype WorkplaceShiftCount = WorkplaceShiftCount(name: string, shifts: nat)

  /** Status code 0 is the only active status. */
  predicate IsActive(w: Workplace)
  {
    w.status == 0
  }

  /** A shift with a worker assigned counts as completed. */
  predicate IsCompleted(s: Shift)
  {
    s.workerId != None
  }
}
