/** One call of `writeTextAtomic` (`src/core/json.ts`) on a disk whose operations may
    fail, and during which the process may die at any point. */
module AtomicWriter {
  import opened Wrappers
  import opened Bytes
  import opened AtomicFiles

  datatype Outcome = Success | Failure | Death

  class Volume {
    var files: Files
    /** How often an operation has failed, or the process died. */
    var faults: nat

    constructor (files: Files)
      ensures this.files == files
    {
      this.files, faults := files, 0;
    }

    /** `writeFile` with the `wx` flag. A failure or a death inside it leaves part of the
        content behind, if the file could be created at all. */
    method CreateExclusive(path: Path, content: Bytes) returns (o: Outcome)
      modifies this
      ensures path in old(files) ==> o != Success && files == old(files)
      ensures o == Success ==> files == old(files)[path := content]
      ensures o != Success && path !in old(files) ==>
                files == old(files) || (path in files && files[path] <= content && files == old(files)[path := files[path]])
      ensures faults == old(faults) || (faults == old(faults) + 1 && o != Success)
      ensures faults == old(faults) && o != Success ==> o == Failure && path in old(files)
    {
      if path in files { return Failure; }
      if * {
        faults := faults + 1;
        if * { return Failure; } else { return Death; }
      }
      var n: nat :| n <= |content|;
      files := files[path := content[..n]];
      if n < |content| {
        faults := faults + 1;
        if * { return Failure; } else { return Death; }
      }
      assert content[..n] == content;
      return Success;
    }

    method RenameFile(from: Path, to: Path) returns (o: Outcome)
      requires from in files
      modifies this
      ensures files == if o == Success then Apply(old(files), Rename(from, to)) else old(files)
      ensures faults == if o == Success then old(faults) else old(faults) + 1
    {
      if * {
        faults := faults + 1;
        if * { return Failure; } else { return Death; }
      }
      files := Apply(files, Rename(from, to));
      return Success;
    }

    method RemoveFile(path: Path) returns (o: Outcome)
      modifies this
      ensures files == if o == Success then Apply(old(files), Remove(path)) else old(files)
      ensures faults == if o == Success then old(faults) else old(faults) + 1
    {
      if * {
        faults := faults + 1;
        if * { return Failure; } else { return Death; }
      }
      files := Apply(files, Remove(path));
      return Success;
    }

    /** The four operations in order, and the catch block with its two flags. When nothing
        fails it succeeds exactly if both names are free, and otherwise cleans up. */
    method WriteTextAtomic(e: Services, path: Path, content: Bytes, kind: Kind) returns (o: Outcome)
      modifies this
      ensures o == Success ==>
                Tmp(path) !in old(files) && Meta(Tmp(path)) !in old(files) && files == old(files)[path := content]
      ensures SameFile(old(files), files, path) || (path in files && files[path] == content)
      ensures forall p :: p !in {path, Tmp(path), Meta(Tmp(path))} ==> SameFile(old(files), files, p)
      ensures forall p :: p in {Tmp(path), Meta(Tmp(path))} && p in old(files) ==> SameFile(old(files), files, p)
      ensures Tmp(path) in old(files) ==> files == old(files)
      ensures forall t :: t == Tmp(path) && t in files && t !in old(files) ==> files[t] <= content
      ensures forall m :: m == Meta(Tmp(path)) && m in files && m !in old(files) ==>
                            && files[m] <= e.render(MetadataFor(e, path, content, kind))
                            && (Tmp(path) in files ==> files[Tmp(path)] == content)
      ensures old(faults) <= faults
      ensures faults == old(faults) && Tmp(path) !in old(files) && Meta(Tmp(path)) !in old(files) ==> o == Success
      ensures faults == old(faults) && o != Success ==> o == Failure && files == old(files)
    {
      hide MetadataFor;
      var temporaryPath := Tmp(path);
      var metadataPath := Meta(temporaryPath);
      var metadata := MetadataFor(e, path, content, kind);
      var temporaryCreated, metadataCreated := false, false;
      SuffixesDiffer(path);

      o := CreateExclusive(temporaryPath, content);
      if o == Success {
        temporaryCreated := true;
        o := CreateExclusive(metadataPath, e.render(metadata));
        if o == Success {
          metadataCreated := true;
          o := RenameFile(temporaryPath, path);
          if o == Success {
            temporaryCreated := false;
            o := RemoveFile(metadataPath);
            if o == Success { metadataCreated := false; }
          }
        }
      }
      if o == Failure {
        if temporaryCreated {
          var cleaned := RemoveFile(temporaryPath);
          if cleaned != Success { return cleaned; }
        }
        if metadataCreated {
          var cleaned := RemoveFile(metadataPath);
          if cleaned != Success { return cleaned; }
        }
      }
    }
  }
}
