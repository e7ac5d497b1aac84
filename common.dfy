/** Values shared by every part of the build pipeline: bytes, optional values,
    results carrying an error, and the prefix/suffix/substring tests that Go's
    `strings` and `bytes` packages provide. */
module Common {

  /** One byte of a document buffer (Go's `byte`). */
  newtype byte = x: int | 0 <= x < 256

  /** A document buffer (Go's `[]byte`). */
  type Bytes = seq<byte>

  datatype Option<T> = None | Some(value: T)

  /** The suffix of Markdown sources (main.go:459). */
  const MdSuffix: string := ".md"

  /** The suffix a rewritten link gets. Its definition is not part of this
      model; this is the value linkrewrite_test.go:9 implies. */
  const HtmlSuffix: string := ".html"

  /** `[]byte(mdSuffix)`: the bytes of ".md" in UTF-8. */
  const MdBytes: Bytes := [46, 109, 100]

  /** The errors the pipeline itself raises, and `External` for an error value
      handed back by the filesystem, a converter or the template engine. */
  datatype Error =
    | SourceIsDestination                          // validate, main.go:105-107
    | SourceIsTemplates                            // validate, main.go:108-110
    | SameSourceAndDestination                     // renderFile/copyFile guard
    | ParsingTemplates(dir: seq<string>, cause: Error)
    | CreatingAnchors(cause: Error)
    | External(code: string)

  datatype Result<T> = Ok(value: T) | Fail(error: Error)

  predicate HasPrefix<T(==)>(s: seq<T>, p: seq<T>)
  {
    |p| <= |s| && s[..|p|] == p
  }

  predicate HasSuffix<T(==)>(s: seq<T>, x: seq<T>)
  {
    |x| <= |s| && s[|s| - |x|..] == x
  }

  /** Go's `strings.TrimSuffix`: drops `x` from the end of `s` when it is there. */
  function TrimSuffix<T(==)>(s: seq<T>, x: seq<T>): (r: seq<T>)
    ensures HasSuffix(s, x) ==> r + x == s
    ensures !HasSuffix(s, x) ==> r == s
  {
    if HasSuffix(s, x) then s[..|s| - |x|] else s
  }

  /** Go's `bytes.Contains` / `strings.Contains`: `x` occurs somewhere in `s`. */
  predicate Contains<T(==)>(s: seq<T>, x: seq<T>)
    decreases |s|
  {
    HasPrefix(s, x) || (s != [] && Contains(s[1..], x))
  }
}
