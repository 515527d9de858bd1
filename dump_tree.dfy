/**
 * What a record's dump() hands to a Formatter, as data: an ordered list of
 * named entries, each a scalar or a nested object section.
 */
module DumpTree {

  import opened Wire

  datatype DumpValue =
    | Signed(i: int)                  // dump_int
    | Unsigned(n: nat)                // dump_unsigned
    | Text(t: Str)                    // dump_string
    | Section(entries: seq<DumpEntry>) // open_object_section ... close_section

  datatype DumpEntry = DumpEntry(name: string, value: DumpValue)

  /** The names of the entries, in order. */
  function Names(entries: seq<DumpEntry>): (r: seq<string>)
    ensures |r| == |entries|
    ensures forall i | 0 <= i < |entries| :: r[i] == entries[i].name
  {
    seq(|entries|, i requires 0 <= i < |entries| => entries[i].name)
  }

  /** Names distributes over concatenation. */
  lemma NamesAppend(a: seq<DumpEntry>, b: seq<DumpEntry>)
    ensures Names(a + b) == Names(a) + Names(b)
  {
  }
}
