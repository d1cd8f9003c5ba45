/** A project archive (`.FCStd`) seen through `zipfile`: an ordered list of
    named payloads, and what an attempt to create one leaves behind. */
module Zip {
  import opened Outcomes
  import opened Os

  /** One archive member: its `/`-separated name and its bytes. */
  datatype Entry = Entry(name: string, data: Bytes)

  /** The outcome of a `createDocument` call. `NotCreated`: an exception came
      before the archive was opened, so no archive exists. `Created`: the
      archive was closed normally. `Partial`: an exception came while members
      were being written; leaving the `with ZipFile(...)` block closes the
      archive with the members written so far, then the exception propagates. */
  datatype Creation =
    | NotCreated(error: Error)
    | Created(archive: seq<Entry>)
    | Partial(archive: seq<Entry>, error: Error)

  /** `ZipFile.read(name)`: members are looked up by name, and of several
      members with the same name the last one wins. */
  function ReadMember(archive: seq<Entry>, name: string): (r: Option<Bytes>)
    ensures (exists i :: 0 <= i < |archive| && archive[i].name == name) ==> r.Some?
    ensures r.Some? ==> exists i :: 0 <= i < |archive| && archive[i] == Entry(name, r.value)
  {
    if archive == [] then None
    else if archive[|archive| - 1].name == name then Some(archive[|archive| - 1].data)
    else
      var init := archive[..|archive| - 1];
      assert forall i :: 0 <= i < |init| ==> init[i] == archive[i];
      ReadMember(init, name)
  }

  /** The position of the last member named like member `i`. */
  function LastIndex(archive: seq<Entry>, i: nat): (j: nat)
    requires i < |archive|
    ensures i <= j < |archive| && archive[j].name == archive[i].name
    ensures forall k :: j < k < |archive| ==> archive[k].name != archive[i].name
    decreases |archive|
  {
    var n := |archive|;
    if archive[n - 1].name == archive[i].name then n - 1
    else
      var init := archive[..n - 1];
      assert forall k :: 0 <= k < |init| ==> init[k] == archive[k];
      LastIndex(init, i)
  }

  /** What `read(name)` returns is the bytes of the last member of that name. */
  lemma {:induction false} ReadMemberLast(archive: seq<Entry>, i: nat)
    requires i < |archive|
    ensures ReadMember(archive, archive[i].name) == Some(archive[LastIndex(archive, i)].data)
    decreases |archive|
  {
    var n := |archive|;
    var name := archive[i].name;
    if archive[n - 1].name != name {
      var init := archive[..n - 1];
      assert init[i] == archive[i];
      assert ReadMember(archive, name) == ReadMember(init, name);
      ReadMemberLast(init, i);
      assert LastIndex(archive, i) == LastIndex(init, i);
      assert archive[LastIndex(init, i)] == init[LastIndex(init, i)];
    }
  }

  /** With member names that are all different, `read(name)` gives each
      member's own bytes. */
  lemma ReadMemberUnique(archive: seq<Entry>, i: nat)
    requires i < |archive|
    requires forall j :: 0 <= j < |archive| && j != i ==> archive[j].name != archive[i].name
    ensures ReadMember(archive, archive[i].name) == Some(archive[i].data)
  {
    ReadMemberLast(archive, i);
  }
}
