/**
 * The two-form query language of `NetworkXGraphStorage.query`, as a closed
 * variant: `"node:<id>"`, `"neighbors:<id>"`, and everything else.  The
 * identifier is what `str.split(":", 1)[1]` yields: everything after the
 * first colon.
 */
module GraphQuery {
  import opened Wrappers

  datatype Query = ByNode(id: string) | ByNeighbors(id: string) | Unsupported

  const NodePrefix: string := "node:"
  const NeighborsPrefix: string := "neighbors:"

  /** `s.startswith(p)`. */
  predicate StartsWith(s: string, p: string): (r: bool)
    ensures r <==> |p| <= |s| && s == p + s[|p|..]
  {
    |p| <= |s| && s[..|p|] == p
  }

  /** `s.find(c)`: the index of the first occurrence of `c`, if any. */
  function IndexOf(s: string, c: char): (r: Option<nat>)
    ensures r.Some? ==> r.value < |s| && s[r.value] == c && c !in s[..r.value]
    ensures r.None? ==> c !in s
  {
    if s == [] then None
    else if s[0] == c then Some(0)
    else
      match IndexOf(s[1..], c)
      case None => None
      case Some(i) =>
        assert s[..i + 1] == [s[0]] + s[1..][..i];
        Some(i + 1)
  }

  /** `s.split(sep, 1)`: the whole string, or the parts before and after the first `sep`. */
  function SplitOnce(s: string, sep: char): (parts: seq<string>)
    ensures sep !in s ==> parts == [s]
    ensures sep in s ==> |parts| == 2 && parts[0] + [sep] + parts[1] == s && sep !in parts[0]
  {
    match IndexOf(s, sep)
    case None => [s]
    case Some(i) =>
      assert s == s[..i] + [sep] + s[i + 1..];
      [s[..i], s[i + 1..]]
  }

  /** The first colon of a string that starts with `p` is the colon `p` ends with. */
  lemma AfterPrefixColon(text: string, p: string)
    requires StartsWith(text, p) && |p| > 0 && p[|p| - 1] == ':' && ':' !in p[..|p| - 1]
    ensures ':' in text && SplitOnce(text, ':')[1] == text[|p|..]
  {
    assert text[|p| - 1] == p[|p| - 1];
    var parts := SplitOnce(text, ':');
    var n := |parts[0]|;
    assert text[..n] == parts[0] && text[n] == ':' && text[n + 1..] == parts[1] by {
      assert text == parts[0] + [':'] + parts[1];
    }
  }

  /** No text starts with both prefixes: they differ in their second character. */
  lemma PrefixesExclusive(text: string)
    ensures StartsWith(text, NodePrefix) ==> !StartsWith(text, NeighborsPrefix)
  {
    if StartsWith(text, NodePrefix) {
      assert text[1] == NodePrefix[1] != NeighborsPrefix[1];
    }
  }

  /**
   * `query(text)` dispatch: the `node:` test comes first, then `neighbors:`;
   * the identifier is the text after the prefix, colons included.
   */
  function Parse(text: string): (q: Query)
    ensures q.ByNode? <==> StartsWith(text, NodePrefix)
    ensures q.ByNeighbors? <==> StartsWith(text, NeighborsPrefix)
    ensures q.ByNode? ==> q.id == text[|NodePrefix|..]
    ensures q.ByNeighbors? ==> q.id == text[|NeighborsPrefix|..]
  {
    PrefixesExclusive(text);
    if StartsWith(text, NodePrefix) then
      AfterPrefixColon(text, NodePrefix);
      ByNode(SplitOnce(text, ':')[1])
    else if StartsWith(text, NeighborsPrefix) then
      AfterPrefixColon(text, NeighborsPrefix);
      ByNeighbors(SplitOnce(text, ':')[1])
    else
      Unsupported
  }

  /** The query text a supported query is written as. */
  function Render(q: Query): (text: string)
    requires !q.Unsupported?
  {
    match q
    case ByNode(id) => NodePrefix + id
    case ByNeighbors(id) => NeighborsPrefix + id
  }

  /** Every supported query reads back as itself, whatever its identifier contains. */
  lemma ParseRender(q: Query)
    requires !q.Unsupported?
    ensures Parse(Render(q)) == q
  {
    var text := Render(q);
    if q.ByNode? {
      assert text[..|NodePrefix|] == NodePrefix;
      assert text[|NodePrefix|..] == q.id;
    } else {
      assert text[..|NeighborsPrefix|] == NeighborsPrefix;
      assert text[|NeighborsPrefix|..] == q.id;
      assert !StartsWith(text, NodePrefix) by {
        assert text[1] != NodePrefix[1];
      }
    }
  }

  /** Every text that parses as a supported query is exactly that query's rendering. */
  lemma RenderParse(text: string)
    requires !Parse(text).Unsupported?
    ensures Render(Parse(text)) == text
  {
    var q := Parse(text);
    if q.ByNode? {
      assert text == text[..|NodePrefix|] + text[|NodePrefix|..];
    } else {
      assert text == text[..|NeighborsPrefix|] + text[|NeighborsPrefix|..];
    }
  }
}
