/**
 * The static table of host backends in src/main.c and the index that picks
 * the active one. The backends themselves are outside the model; an entry
 * is identified by the protocol it emulates.
 */
module HostRegistry {

  /** The legacy protocols a backend can emulate. */
  datatype Backend = Sun | Adb | Apollo

  /** One table entry: a backend, or the all-zero entry that ends the table. */
  datatype HostDevice = Host(backend: Backend) | EndOfTable

  /** hosts[]: the three backends in order, then the terminator. */
  const Hosts: seq<HostDevice> := [Host(Sun), Host(Adb), Host(Apollo), EndOfTable]

  /** g_current_host_index. */
  const CurrentHostIndex: int := 2

  /** Every entry before the last is a backend and the last one ends the table. */
  ghost predicate Terminated(table: seq<HostDevice>)
  {
    && |table| > 0
    && table[|table| - 1] == EndOfTable
    && forall i :: 0 <= i < |table| - 1 ==> table[i].Host?
  }

  /** An index that may be used to select a backend from `table`. */
  predicate Selectable(table: seq<HostDevice>, index: int)
  {
    0 <= index < |table| && table[index].Host?
  }

  /**
   * The table is terminated, holds exactly the three protocols, and the
   * index the firmware uses selects one of them (the Apollo backend), never
   * the terminator.
   */
  lemma CurrentHostIsRegistered()
    ensures Terminated(Hosts) && |Hosts| == 4
    ensures forall b: Backend :: Host(b) in Hosts[..3]
    ensures Selectable(Hosts, CurrentHostIndex) && CurrentHostIndex < |Hosts| - 1
    ensures Hosts[CurrentHostIndex] == Host(Apollo)
  {
    assert Terminated(Hosts);
    SelectableBeforeTerminator(Hosts, CurrentHostIndex);
    forall b: Backend
      ensures Host(b) in Hosts[..3]
    {
      match b
      case Sun => assert Hosts[..3][0] == Host(Sun);
      case Adb => assert Hosts[..3][1] == Host(Adb);
      case Apollo => assert Hosts[..3][2] == Host(Apollo);
    }
  }

  /** In a terminated table the selectable indices are exactly those before the terminator. */
  lemma SelectableBeforeTerminator(table: seq<HostDevice>, index: int)
    requires Terminated(table)
    ensures Selectable(table, index) <==> 0 <= index < |table| - 1
  {
  }
}
