/** `dlopen` flags (src/lib.rs) and the names the registry gives special treatment. */
module OpenFlags {

  /** One bit of the flag word. RTLD_LOCAL is zero, that is, the empty set of bits. */
  datatype Flag = Lazy | Now | NoLoad | DeepBind | Global | NoDelete | OtherBit(bit: nat)

  type Flags = set<Flag>

  function Promotable(flags: Flags): Flags {
    flags * {Global, NoDelete}
  }

  predicate OccursAt(s: string, part: string, i: nat) {
    i + |part| <= |s| && s[i..i + |part|] == part
  }

  predicate HasSubstring(s: string, part: string) {
    exists i | 0 <= i <= |s| :: OccursAt(s, part, i)
  }

  /** The C library and its companions are never unloaded. */
  function NormalizedFlags(name: string, flags: Flags): (r: Flags)
    ensures flags <= r <= flags + {NoDelete}
  {
    if HasSubstring(name, "libc")
       || HasSubstring(name, "libpthread")
       || HasSubstring(name, "libdl")
       || HasSubstring(name, "libgcc_s")
       || HasSubstring(name, "ld-linux")
       || HasSubstring(name, "ld-musl")
    then flags + {NoDelete}
    else flags
  }

  const LIBC: string := "libc.so.6"
  const LOADER: string := "ld-linux-x86-64.so.2"

  /** Names of libraries that newer C libraries have absorbed. */
  function CompatAliases(shortname: string): seq<string> {
    if shortname == LIBC then
      ["libdl.so.2", "libpthread.so.0", "libutil.so.1", "librt.so.1", "libanl.so.1"]
    else if shortname == LOADER then ["ld-linux.so.2"]
    else []
  }

  /** The three kinds of special names already differ in length. */
  lemma CompatAliasLengths(a: string, alias: string)
    requires alias in CompatAliases(a)
    ensures a == LIBC || a == LOADER
    ensures a == LIBC ==> |alias| in {10, 11, 12, 15}
    ensures a == LOADER ==> |alias| == 13
  {
    var i :| 0 <= i < |CompatAliases(a)| && CompatAliases(a)[i] == alias;
    if a == LIBC {
      assert i == 0 || i == 1 || i == 2 || i == 3 || i == 4;
    }
  }

  /** No name is a compatibility alias of two libraries, and no library is one of another. */
  lemma CompatAliasesApart(a: string, b: string, alias: string)
    requires alias in CompatAliases(a)
    ensures alias in CompatAliases(b) ==> a == b
    ensures CompatAliases(alias) == []
  {
    CompatAliasLengths(a, alias);
    if alias in CompatAliases(b) {
      CompatAliasLengths(b, alias);
    }
    assert |LIBC| == 9;
    assert |LOADER| == 20;
  }

  predicate IsSeparator(c: char) {
    c == '/' || c == '\\'
  }

  /** The parts of a name by which a library of the C runtime is known. */
  predicate NamesRuntime(part: string) {
    || part == "libc" || part == "libpthread" || part == "libdl"
    || part == "libgcc_s" || part == "ld-linux" || part == "ld-musl"
  }

  /** RTLD_NODELETE is added for the C runtime and for nothing else. */
  lemma NormalizedFlagsMeaning(name: string, flags: Flags)
    ensures NoDelete in NormalizedFlags(name, flags) <==>
              NoDelete in flags || exists part :: NamesRuntime(part) && HasSubstring(name, part)
    ensures NormalizedFlags(name, flags) - {NoDelete} == flags - {NoDelete}
  {
    hide HasSubstring;
    assert NamesRuntime("libc") && NamesRuntime("libpthread") && NamesRuntime("libdl");
    assert NamesRuntime("libgcc_s") && NamesRuntime("ld-linux") && NamesRuntime("ld-musl");
  }

  /** The part of a path after its last separator. */
  function LastComponent(name: string): (r: string)
    ensures forall c :: c in r ==> !IsSeparator(c)
    ensures |r| <= |name| && name[|name| - |r|..] == r
    ensures |r| < |name| ==> IsSeparator(name[|name| - |r| - 1])
  {
    if exists c :: c in name && IsSeparator(c) then
      if exists c :: c in name[1..] && IsSeparator(c) then LastComponent(name[1..])
      else name[1..]
    else name
  }

  /** What follows the last separator, whatever the directory in front. */
  lemma LastComponentOf(dir: string, separator: char, file: string)
    requires IsSeparator(separator) && forall c :: c in file ==> !IsSeparator(c)
    ensures LastComponent(dir + [separator] + file) == file
  {
    var name := dir + [separator] + file;
    var r := LastComponent(name);
    hide IsSeparator, LastComponent;
    assert name[|dir|] == separator;
    assert forall i :: |name| - |r| <= i < |name| ==> name[i] == r[i - (|name| - |r|)];
    assert forall i :: |dir| < i < |name| ==> name[i] == file[i - |dir| - 1];
    assert |r| == |file|;
    assert name[|name| - |file|..] == file;
  }

  /** The key of a library: its file name, or "main" for the unnamed main program. */
  function ShortnameFromName(name: string): string {
    if name == "" then "main" else LastComponent(name)
  }
}
