/** The library's data model: one record per tracked manga title, as the
    dashboard's `Manga` interface declares it. Numeric fields are integers. */
module Library {

  /** The closed set of reading states an entry can be in. */
  datatype Status = Reading | Completed | PlanToRead | Dropped

  /** The status as the source spells it in its string-literal union. */
  function StatusName(s: Status): (r: string)
    ensures |r| > 0
    ensures ',' !in r && '\n' !in r
  {
    match s
    case Reading => "reading"
    case Completed => "completed"
    case PlanToRead => "plan-to-read"
    case Dropped => "dropped"
  }

  /** Reads a status name back; anything else is not a status. */
  function ParseStatus(name: string): (r: Option<Status>)
  {
    if name == "reading" then Some(Reading)
    else if name == "completed" then Some(Completed)
    else if name == "plan-to-read" then Some(PlanToRead)
    else if name == "dropped" then Some(Dropped)
    else None
  }

  /** Every status name reads back as that status, so distinct statuses have
      distinct names. */
  lemma ParseStatusName(s: Status)
    ensures ParseStatus(StatusName(s)) == Some(s)
  {
  }

  datatype Option<T> = None | Some(value: T)

  /** One library entry. A rating of 0 means "unrated". */
  datatype Manga = Manga(
    id: int,
    title: string,
    status: Status,
    chaptersRead: int,
    totalChapters: int,
    rating: int,
    genre: string,
    coverColor: string
  )
}
