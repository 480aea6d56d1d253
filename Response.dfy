/**
 * What `serve()` writes back once it knows the requested name. The `docs`
 * directory, as the handler finds it, is a map from file name to file. A
 * name is absent when `is_file()` returns false for `docs/<name>`. It maps
 * to `Unreadable` when an exception escapes while looking it up: `is_file()`
 * itself raises (a name too long for the file system, a `docs` directory
 * that cannot be searched), or `open` or `read` raises. Otherwise it maps to
 * `Readable` with the text that was read.
 */
module Response {
  import opened Gemini

  datatype File = Readable(contents: string) | Unreadable

  type Docs = map<string, File>

  /** The two status lines the server sends, byte for byte. */
  const NotFoundLine: string := "51 Not Found\r\n"
  const SuccessLine: string := "20 text/gemini\r\n"

  /** The not-found line is the header 51 `Not Found` in the protocol's form. */
  lemma NotFoundLineFormat()
    ensures WellFormed(NotFound) && NotFoundLine == Format(NotFound)
  {
    assert Digit(5) == '5' && Digit(1) == '1';
    assert Format(NotFound) == ['5', '1', ' '] + "Not Found" + "\r\n";
  }

  /** The success line is the header 20 `text/gemini` in the protocol's form. */
  lemma SuccessLineFormat()
    ensures WellFormed(Success) && SuccessLine == Format(Success)
  {
    assert Digit(2) == '2' && Digit(0) == '0';
    assert Format(Success) == ['2', '0', ' '] + "text/gemini" + "\r\n";
  }

  /**
   * The successive `send` calls made for a name, or `None` when an
   * exception escapes before anything is sent (the name's lookup, open or
   * read raises).
   */
  function Respond(docs: Docs, name: string): (writes: Option<seq<string>>)
    ensures writes.None? <==> name in docs && docs[name].Unreadable?
    ensures writes.Some? ==> 1 <= |writes.value| <= 2
    ensures writes.Some? ==> (|writes.value| == 2 <==> name in docs)
  {
    if name !in docs then Some([NotFoundLine])
    else
      match docs[name]
      case Unreadable => None
      case Readable(contents) => Some([SuccessLine, contents])
  }

  /** The byte stream a sequence of writes puts on the connection. */
  function Concat(writes: seq<string>): (s: string)
    ensures |writes| == 1 ==> s == writes[0]
    ensures |writes| == 2 ==> s == writes[0] + writes[1]
    decreases |writes|
  {
    if writes == [] then [] else writes[0] + Concat(writes[1..])
  }

  /**
   * A client reading the stream finds a 51 header with an empty body for a
   * missing name, and a 20 `text/gemini` header followed by exactly the
   * file's contents for a readable one.
   */
  lemma ClientReadsResponse(docs: Docs, name: string)
    requires !(name in docs && docs[name].Unreadable?)
    ensures Respond(docs, name).Some?
    ensures name !in docs ==>
      Parse(Concat(Respond(docs, name).value)) == Some(Reply(NotFound, []))
    ensures name in docs ==>
      Parse(Concat(Respond(docs, name).value)) == Some(Reply(Success, docs[name].contents))
  {
    if name !in docs {
      NotFoundLineFormat();
      ParseFormat(NotFound, []);
      assert Format(NotFound) + [] == NotFoundLine;
    } else {
      SuccessLineFormat();
      ParseFormat(Success, docs[name].contents);
    }
  }
}
