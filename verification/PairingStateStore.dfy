/**
The companion's persisted counters (src/name_atlas/foldweave_companion_client.py). Every method
is one critical section under the state file's lock: read, migrate, advance, replace.
*/
module PairingStateStore {
  import opened Common

  /** `nextCompanion` is absent from files written before the split of the two domains. */
  datatype PairingFile = PairingFile(nextDevice: int, nextCompanion: Option<int>, lastGateway: int)

  /** The companion counter, seeded on reading from the older file's single counter. */
  function NextCompanion(f: PairingFile): int {
    f.nextCompanion.GetOr(f.nextDevice)
  }

  function AfterControl(f: PairingFile): PairingFile {
    PairingFile(f.nextDevice + 1, Some(NextCompanion(f)), f.lastGateway)
  }

  function AfterCompanion(f: PairingFile): PairingFile {
    PairingFile(f.nextDevice, Some(NextCompanion(f) + 1), f.lastGateway)
  }

  function AfterGateway(f: PairingFile, sequence: int): PairingFile {
    PairingFile(f.nextDevice, Some(NextCompanion(f)), sequence)
  }

  datatype StoreError = NotConfigured | GatewayRequestReplayed

  class CompanionPairingStateStore {
    var file: Option<PairingFile>

    constructor (file: Option<PairingFile>)
      ensures this.file == file
    {
      this.file := file;
    }

    method Write(state: PairingFile)
      modifies this
      ensures file == Some(state)
    {
      file := Some(state);
    }

    method Remove() returns (removed: bool)
      modifies this
      ensures file == None && removed == old(file).Some?
    {
      removed := file.Some?;
      file := None;
    }

    /** Reading migrates the value returned; the file itself changes with the next write. */
    method Read() returns (r: Result<PairingFile, StoreError>)
      ensures file.None? ==> r == Err(NotConfigured)
      ensures file.Some? ==> r == Ok(file.value.(nextCompanion := Some(NextCompanion(file.value))))
    {
      if file.None? {
        return Err(NotConfigured);
      }
      var state := file.value;
      if state.nextCompanion.None? {
        state := state.(nextCompanion := Some(state.nextDevice));
      }
      return Ok(state);
    }

    /** The number handed out is persisted as used before it is returned. */
    method AllocateControlSequence() returns (r: Result<int, StoreError>)
      modifies this
      ensures old(file).None? ==> r == Err(NotConfigured) && file == None
      ensures old(file).Some? ==> r == Ok(old(file).value.nextDevice) && file == Some(AfterControl(old(file).value))
    {
      var read := Read();
      if read.Err? {
        return Err(read.error);
      }
      var sequence := read.value.nextDevice;
      Write(read.value.(nextDevice := sequence + 1));
      return Ok(sequence);
    }

    method AllocateCompanionSequence() returns (r: Result<int, StoreError>)
      modifies this
      ensures old(file).None? ==> r == Err(NotConfigured) && file == None
      ensures old(file).Some? ==>
        r == Ok(NextCompanion(old(file).value)) && file == Some(AfterCompanion(old(file).value))
    {
      var read := Read();
      if read.Err? {
        return Err(read.error);
      }
      var sequence := read.value.nextCompanion.value;
      Write(read.value.(nextCompanion := Some(sequence + 1)));
      return Ok(sequence);
    }

    /** A relay sequence at or below the durable mark is refused and changes nothing. */
    method RecordGatewaySequence(sequence: int) returns (r: Result<(), StoreError>)
      modifies this
      ensures r.Ok? <==> old(file).Some? && old(file).value.lastGateway < sequence
      ensures file == if r.Ok? then Some(AfterGateway(old(file).value, sequence)) else old(file)
    {
      var read := Read();
      if read.Err? {
        return Err(read.error);
      }
      if sequence <= read.value.lastGateway {
        return Err(GatewayRequestReplayed);
      }
      Write(read.value.(lastGateway := sequence));
      return Ok(());
    }
  }
}
