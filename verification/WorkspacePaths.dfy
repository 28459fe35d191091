/** Names and relative paths of a workspace. */
module WorkspacePaths {
  import opened Bytes

  function Ascii(s: string): (bytes: Bytes)
    ensures |bytes| == |s|
    ensures forall i | 0 <= i < |s| :: bytes[i] == (s[i] as int % 256) as byte
  {
    seq(|s|, i requires 0 <= i < |s| => (s[i] as int % 256) as byte)
  }

  lemma AsciiConcat(a: string, b: string)
    ensures Ascii(a + b) == Ascii(a) + Ascii(b)
  {
  }

  const GENERATED: seq<string> := [
    ".git", ".next", ".pytest_cache", ".venv", "__pycache__", "build", "coverage", "dist",
    "node_modules", "target"]

  predicate GeneratedName(name: Bytes) {
    exists g | g in GENERATED :: name == Ascii(g)
  }

  predicate GeneratedPath(path: Bytes) {
    exists name | name in Split(path, SLASH) :: GeneratedName(name)
  }
}
