/** The fragment of Python's `re` that the glob compiler writes, with its language. */
module Regex {

  /** What one regex character position accepts. */
  datatype CharSet =
    | Only(c: char)                        // an escaped literal
    | Except(c: char)                      // [^/] and, for '.', anything but a newline
    | Members(negated: bool, body: string) // a bracket expression

  datatype Re =
    | Empty
    | One(accepts: CharSet)
    | Cat(first: Re, second: Re)
    | Many(body: Re)  // body*

  /** Membership in a bracket body: single characters and `lo-hi` ranges. */
  predicate InBody(body: string, c: char) {
    if body == "" then false
    else if |body| >= 3 && body[1] == '-' then body[0] <= c <= body[2] || InBody(body[3..], c)
    else body[0] == c || InBody(body[1..], c)
  }

  predicate Has(cs: CharSet, c: char) {
    match cs
    case Only(d) => c == d
    case Except(d) => c != d
    case Members(negated, body) => InBody(body, c) != negated
  }

  /** `s` is in the language of `r`. */
  predicate Matches(r: Re, s: string)
    decreases r, |s|
  {
    match r
    case Empty => s == ""
    case One(cs) => |s| == 1 && Has(cs, s[0])
    case Cat(a, b) => exists k :: 0 <= k <= |s| && Matches(a, s[..k]) && Matches(b, s[k..])
    case Many(a) => s == "" || exists k :: 0 < k <= |s| && Matches(a, s[..k]) && Matches(r, s[k..])
  }

  function Concat(parts: seq<Re>): Re {
    if parts == [] then Empty else Cat(parts[0], Concat(parts[1..]))
  }

  /** `re.compile("^" + parts + "$").match(path)`: `$` also stops before one final newline. */
  predicate Accepts(parts: seq<Re>, path: string) {
    || Matches(Concat(parts), path)
    || (path != "" && path[|path| - 1] == '\n' && Matches(Concat(parts), path[..|path| - 1]))
  }
}
