/** Text helpers shared by the wrapping engine: Go's `strings.Join` and the
    option type used for a construct that contributes no replacement.
    Text is `seq<char>` with one char per byte: the engine indexes bytes and
    counts runes, which agree only on ASCII text. */
module Text {

  datatype Option<T> = None | Some(value: T)

  /** `strings.Join`: the parts with `sep` between consecutive ones. */
  function Join(parts: seq<string>, sep: string): string
  {
    if |parts| == 0 then []
    else if |parts| == 1 then parts[0]
    else parts[0] + sep + Join(parts[1..], sep)
  }

  /** Each line followed by its own newline. */
  function Terminated(lines: seq<string>): string
  {
    if lines == [] then [] else lines[0] + "\n" + Terminated(lines[1..])
  }

  /** `strings.Join(lines, "\n") + "\n"` terminates every line, the last one
      included, as soon as there is at least one line. */
  lemma {:induction false} JoinTerminated(lines: seq<string>)
    requires lines != []
    ensures Join(lines, "\n") + "\n" == Terminated(lines)
  {
    if |lines| > 1 {
      JoinTerminated(lines[1..]);
      assert Join(lines, "\n") + "\n" == lines[0] + "\n" + (Join(lines[1..], "\n") + "\n");
    }
  }

  /** A character absent from every part and from the separator is absent
      from the joined text. */
  lemma {:induction false} JoinAvoids(parts: seq<string>, sep: string, c: char)
    requires c !in sep
    requires forall k :: 0 <= k < |parts| ==> c !in parts[k]
    ensures c !in Join(parts, sep)
  {
    if |parts| > 1 {
      JoinAvoids(parts[1..], sep, c);
    }
  }

  /** Two texts that agree on their first `bound` characters agree on every
      slice below `bound`. */
  lemma AgreeBelow(s: string, t: string, bound: int, i: int, j: int)
    requires 0 <= i <= j <= bound <= |s| && bound <= |t|
    requires s[..bound] == t[..bound]
    ensures s[i..j] == t[i..j]
    ensures forall k :: i <= k < j ==> s[k] == t[k]
  {
    assert s[i..j] == s[..bound][i..j];
    assert t[i..j] == t[..bound][i..j];
  }

  /** Splicing `e` over `s[i..j]` gives `s` back exactly when `e` is that
      slice. */
  lemma SpliceSame(s: string, i: int, j: int, e: string)
    requires 0 <= i <= j <= |s|
    ensures s == s[..i] + s[i..j] + s[j..]
    ensures s[..i] + e + s[j..] == s <==> e == s[i..j]
  {
    assert s == s[..i] + s[i..j] + s[j..];
    var r := s[..i] + e + s[j..];
    if r == s {
      assert e == r[i..i + |e|];
    }
  }

  /** Starting a slice earlier prepends the text in between. */
  lemma SliceShift(s: string, lo: int, p: int, hi: int, tail: string)
    requires 0 <= lo <= p <= hi <= |s|
    ensures s[lo..hi] + tail == s[lo..p] + (s[p..hi] + tail)
  {
    assert s[lo..hi] == s[lo..p] + s[p..hi];
  }
}
