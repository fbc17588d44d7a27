/** The plain data the content script passes between its handlers, with the DOM and the
    network replaced by values. */
module Records {

  datatype Option<T> = None | Some(value: T)

  /** A shelf entry as the host page embeds it in `data-book` (the BookData typedef). */
  datatype Book = Book(id: string, serviceId: string, tags: seq<string>)

  /** The url-encoded form posted to the tag API: `tags` is the whole list as one string. */
  datatype TagRequest = TagRequest(id: string, serviceId: string, tags: string)

  /** What the script reads of a fetch response: its `ok` flag and its body text. */
  datatype Response = Response(ok: bool, body: string)

  /** The two audible cues, `beepOk` and `beepNg`. */
  datatype Cue = Ok | Ng

  /** Everything a handler does that the outside world can observe, in the order it happens. */
  datatype Effect =
    | Fetch(keyword: string, page: nat)  // one GET of the paginated shelf search
    | Post(request: TagRequest)          // one POST of a book's full tag list
    | Alert(message: string)             // a blocking alert showing a response body
    | Show(text: string)                 // an assignment to the progress text
    | Beep(cue: Cue)                     // an audible cue
}
