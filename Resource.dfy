/**
 * How `serve()` turns the decoded request text into the name of a file
 * under `docs/`: strip it, split it on `/`, keep the last piece, and fall
 * back to `index.gmi` when that piece is empty.
 */
module Resource {
  import opened Text

  const Separator: char := '/'
  const IndexName: string := "index.gmi"

  /** The file name a request asks for. */
  function RequestedFile(request: string): (name: string)
    ensures name != []
    ensures Separator !in name
  {
    var splits := Split(Strip(request), Separator);
    SplitPieces(Strip(request), Separator);
    var last := splits[|splits| - 1];
    if last == [] then IndexName else last
  }

  /** The last piece of the split is the part after the last `/`. */
  lemma NameIsLastSegment(request: string)
    ensures var l := LastSegment(Strip(request), Separator);
      RequestedFile(request) == if |l| == 0 then IndexName else l
  {
    var t := Strip(request);
    SplitLast(t, Separator);
    var splits := Split(t, Separator);
    assert splits[|splits| - 1] == LastSegment(t, Separator);
  }

  /**
   * The name is what follows the last `/` of the stripped request, or the
   * whole stripped request when it has no `/`; an empty result becomes
   * `index.gmi`. The last piece is taken even when it is empty, so a
   * trailing `/` never falls back to the piece before it.
   */
  lemma NameAfterLastSlash(request: string)
    ensures var t := Strip(request);
      Separator !in t ==> RequestedFile(request) == (if t == [] then IndexName else t)
    ensures var t := Strip(request);
      forall k :: 0 <= k < |t| && t[k] == Separator && Separator !in t[k + 1..] ==>
        RequestedFile(request) == (if k + 1 == |t| then IndexName else t[k + 1..])
  {
    var t := Strip(request);
    NameIsLastSegment(request);
    if Separator !in t {
      LastSegmentUnique(t, Separator, t);
    }
    forall k | 0 <= k < |t| && t[k] == Separator && Separator !in t[k + 1..]
      ensures RequestedFile(request) == (if k + 1 == |t| then IndexName else t[k + 1..])
    {
      LastSegmentUnique(t, Separator, t[k + 1..]);
    }
  }

  /** Two requests whose stripped texts end in the same piece ask for the same file. */
  lemma SameLastSegmentSameName(a: string, b: string)
    requires LastSegment(Strip(a), Separator) == LastSegment(Strip(b), Separator)
    ensures RequestedFile(a) == RequestedFile(b)
  {
    NameIsLastSegment(a);
    NameIsLastSegment(b);
  }

  lemma LastSegmentAfterSlash(p: string, s: string)
    ensures LastSegment(Strip(p + "/" + s), Separator) == LastSegment(TrimEnd(s), Separator)
  {
    StripAround(p, Separator, s);
    LastSegmentAfter(TrimStart(p), Separator, TrimEnd(s));
  }

  lemma SlashTailsAgree(p: string, s: string)
    ensures LastSegment(Strip(p + "/" + s), Separator) == LastSegment(Strip("/" + s), Separator)
  {
    LastSegmentAfterSlash(p, s);
    LastSegmentAfterSlash([], s);
    assert [] + "/" + s == "/" + s;
  }

  /**
   * Only the last piece matters: everything up to and including the last
   * `/` is dropped, whatever it holds (`..` included).
   */
  lemma IntermediateSegmentsIgnored(p: string, s: string)
    ensures RequestedFile(p + "/" + s) == RequestedFile("/" + s)
  {
    SlashTailsAgree(p, s);
    SameLastSegmentSameName(p + "/" + s, "/" + s);
  }

  /**
   * A request whose last piece is a plain name (no `/`, not ending in
   * whitespace) asks for exactly that name.
   */
  lemma PlainLastPiece(p: string, name: string)
    requires name != [] && Separator !in name && !IsSpace(name[|name| - 1])
    ensures RequestedFile(p + "/" + name) == name
  {
    LastSegmentAfterSlash(p, name);
    TrimEndKeeps(name, []);
    assert name + [] == name && TrimEnd([]) == [];
    LastSegmentUnique(name, Separator, name);
    NameIsLastSegment(p + "/" + name);
  }

  /** A request for the root, or for any path ending in `/`, is a request for `index.gmi`. */
  lemma RootIsIndex(request: string)
    requires var t := Strip(request); t == [] || t[|t| - 1] == Separator
    ensures RequestedFile(request) == IndexName
  {
    NameIsLastSegment(request);
  }

  /** ... and so it is answered exactly as an explicit request for `index.gmi` would be. */
  lemma RootAsExplicitIndex(request: string, p: string)
    requires var t := Strip(request); t == [] || t[|t| - 1] == Separator
    ensures RequestedFile(request) == RequestedFile(p + "/" + IndexName)
  {
    RootIsIndex(request);
    PlainLastPiece(p, IndexName);
  }

  /** A `..` final piece is passed through unchanged: nothing is rejected. */
  lemma DotDotNotFiltered(p: string)
    ensures RequestedFile(p + "/..") == ".."
  {
    PlainLastPiece(p, "..");
    assert p + "/" + ".." == p + "/..";
  }
}
