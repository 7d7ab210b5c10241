/** The event record that the search reads. Only the fields the search looks
  * at are modelled; the record is never changed by it. */
module Events {

  datatype Option<T> = None | Some(value: T)

  /** `title`, `category` and `type` are required strings; `location` and
    * `description` may be absent. The event's `type` field is called `kind`
    * here because `type` is a Dafny keyword. */
  datatype Event = Event(
    title: string,
    category: string,
    kind: string,
    location: Option<string>,
    description: Option<string>)

  /** JavaScript truthiness of an optional string: present and non-empty. */
  predicate IsPresent(field: Option<string>) {
    field.Some? && field.value != []
  }

  /** `field || ''`: the string itself, or the empty string when it is absent. */
  function OrEmpty(field: Option<string>): (r: string)
    ensures IsPresent(field) <==> r != []
    ensures IsPresent(field) ==> r == field.value
  {
    match field
    case None => []
    case Some(s) => s
  }

  /** The five fields, in the order the search joins them. */
  function Fields(e: Event): seq<string> {
    [e.title, e.category, e.kind, OrEmpty(e.location), OrEmpty(e.description)]
  }
}
