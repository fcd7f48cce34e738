/** The entry registrations the plugins hand to the bundler: the choice that
    both plugin drafts copy from the bundler's `EntryOptionPlugin`. */
module EntryPlugins {

  /** An entry item: one request string, or an array of them. */
  datatype EntryItem = SingleItem(request: string) | ArrayItem(requests: seq<string>)

  /** The two registration actions; their internals belong to the bundler. */
  datatype EntryPlugin =
    | SingleEntryPlugin(context: string, request: string, name: string)
    | MultiEntryPlugin(context: string, requests: seq<string>, name: string)

  /** `itemToPlugin(context, item, name)`: an array selects the multi-entry
      registration, anything else the single-entry one. */
  function ItemToPlugin(context: string, item: EntryItem, name: string): (p: EntryPlugin)
    ensures p.MultiEntryPlugin? <==> item.ArrayItem?
    ensures p.context == context && p.name == name
    ensures item.SingleItem? ==> p.request == item.request
    ensures item.ArrayItem? ==> p.requests == item.requests
  {
    match item
    case ArrayItem(requests) => MultiEntryPlugin(context, requests, name)
    case SingleItem(request) => SingleEntryPlugin(context, request, name)
  }
}
