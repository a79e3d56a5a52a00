/**
 The remote store as the bootstrap sees it.  A call may succeed, fail without effect, or fail after
 taking effect; a write that has been issued may take effect at any moment before it is answered.
 The bodies choose among these outcomes arbitrarily, so what is proved against the contracts holds
 for every choice.  A specification and its companion files are one value here.
 */
module RemoteStore {
  import opened Wrappers

  /** `verified` is false when the client could not confirm what it uploaded. */
  datatype UploadReply = Uploaded(id: string, created: bool, verified: bool) | UploadThrew

  datatype BundleReply = Reconciled(changed: bool) | VerificationNeeded | ReconcileThrew

  /** A delta write reports the digest it read back, unless it fell back to a whole update. */
  datatype DeltaReply = DeltaApplied(observed: string) | WholeApplied | DeltaThrew

  /** The two maps agree on every key outside `ids`. */
  ghost predicate SameBut<V>(a: map<string, V>, b: map<string, V>, ids: set<string>) {
    forall id :: id !in ids ==> (id in a <==> id in b) && (id in a && id in b ==> a[id] == b[id])
  }

  /** The two maps agree on every key in `ids`. */
  ghost predicate SameOn<V>(a: map<string, V>, b: map<string, V>, ids: set<string>) {
    forall id :: id in ids ==> (id in a <==> id in b) && (id in a && id in b ==> a[id] == b[id])
  }

  class Remote {
    var collections: map<string, string>
    var specs: map<string, string>
    const digest: string -> string
    /** How many calls have failed so far, or done something else than was asked. */
    ghost var faults: nat

    constructor (collections: map<string, string>, specs: map<string, string>, digest: string -> string)
      ensures this.collections == collections && this.specs == specs && this.digest == digest && faults == 0
    {
      this.collections, this.specs, this.digest := collections, specs, digest;
      faults := 0;
    }

    /** Local steps and the state file: whether one of them fails. */
    method StepFails() returns (failed: bool)
      modifies this`faults
      ensures faults == old(faults) + if failed then 1 else 0
    {
      failed := *;
      if failed {
        faults := faults + 1;
      }
    }

    /** Issued in-place writes and imports take effect, now or not yet, whole or in part. */
    method Land(inFlight: set<string>, reserved: set<string>)
      modifies this`collections
      ensures SameOn(collections, old(collections), reserved - inFlight)
      ensures forall id :: id in reserved && id in old(collections) ==> id in collections
    {
      var after: map<string, string> := *;
      if (forall id <- reserved - inFlight :: (id in after <==> id in collections) && (id in after ==> after[id] == collections[id]))
         && (forall id <- reserved :: id in collections ==> id in after) {
        collections := after;
      }
    }

    method DeepUpdate(id: string, content: string) returns (ok: bool)
      modifies this`collections, this`faults
      ensures faults == old(faults) + if ok then 0 else 1
      ensures ok ==> collections == old(collections)[id := content]
      ensures SameBut(collections, old(collections), {id})
      ensures id in old(collections) ==> id in collections
    {
      ok := *;
      var stored: string := *;
      if ok {
        collections := collections[id := content];
      } else {
        faults := faults + 1;
        if * {
          collections := collections[id := stored];
        }
      }
    }

    method ApplyDelta(id: string, content: string) returns (reply: DeltaReply)
      modifies this`collections, this`faults
      ensures faults >= old(faults)
      ensures faults == old(faults) ==> !reply.DeltaThrew? && id in collections && collections[id] == content
      ensures SameBut(collections, old(collections), {id})
      ensures reply.DeltaApplied? ==> id in collections && reply.observed == digest(collections[id])
      ensures reply.WholeApplied? ==> id in collections && collections[id] == content
      ensures id in old(collections) ==> id in collections
    {
      var stored: string := *;
      if * {
        collections := collections[id := stored];
        reply := DeltaApplied(digest(stored));
        faults := faults + if stored == content then 0 else 1;
      } else if * {
        collections := collections[id := content];
        reply := WholeApplied;
      } else {
        var ok := DeepUpdate(id, content);
        reply := DeltaThrew;
        faults := faults + 1;
      }
    }

    /** A fresh import lands on a root of its own, never on a collection the run reuses. */
    method ImportCollection(content: string, reserved: set<string>) returns (root: Option<string>)
      modifies this`collections, this`faults
      ensures faults == old(faults) + if root.Some? then 0 else 1
      ensures SameOn(collections, old(collections), reserved)
      ensures root.Some? ==> root.value !in reserved && collections == old(collections)[root.value := content]
    {
      var id: string := *;
      root := None;
      if id !in reserved {
        if * {
          collections := collections[id := content];
          root := Some(id);
        } else if * {
          collections := collections[id := content];
        }
      }
      faults := faults + if root.Some? then 0 else 1;
    }

    method ExportCollection(id: string) returns (content: Option<string>)
      modifies this`faults
      ensures faults >= old(faults)
      ensures content.None? && id in collections ==> faults > old(faults)
      ensures content.Some? ==> id in collections && collections[id] == content.value
    {
      content := None;
      var answered: bool := *;
      if answered && id in collections {
        content := Some(collections[id]);
      }
      faults := faults + if answered then 0 else 1;
    }

    /** The digest that a collection's receipt certifies, if there is one to be read. */
    method ReadReceiptDigest(id: string) returns (observed: Option<string>)
      modifies this`faults
      ensures faults >= old(faults)
      ensures observed.None? && id in collections ==> faults > old(faults)
      ensures observed.Some? ==> id in collections && digest(collections[id]) == observed.value
    {
      observed := None;
      var answered: bool := *;
      if answered && id in collections {
        observed := Some(digest(collections[id]));
      }
      faults := faults + if answered then 0 else 1;
    }

    /** The receipt is stored in the same write as the content it certifies. */
    method VerifyReceipt(id: string, expected: string) returns (ok: bool)
      modifies this`faults
      ensures faults >= old(faults)
      ensures !ok && id in collections && digest(collections[id]) == expected ==> faults > old(faults)
      ensures ok ==> id in collections && digest(collections[id]) == expected
    {
      ok := *;
      faults := faults + if ok then 0 else 1;
      ok := ok && id in collections && digest(collections[id]) == expected;
    }

    method DeleteImports(owned: seq<string>, reserved: set<string>) returns (ok: bool)
      requires forall id :: id in owned ==> id !in reserved
      modifies this`collections, this`faults
      ensures faults == old(faults) + if ok then 0 else 1
      ensures SameOn(collections, old(collections), reserved)
      ensures ok ==> forall id :: id in owned ==> id !in collections
    {
      ok := *;
      var gone: set<string> := *;
      var all := set id <- owned;
      collections := collections - (if ok then all else gone * all);
      faults := faults + if ok then 0 else 1;
    }

    /** Linking, tagging and authored collections: effects the run reports but never undoes. */
    method ExternalStage(reserved: set<string>) returns (ok: bool)
      modifies this`collections, this`faults
      ensures faults == old(faults) + if ok then 0 else 1
      ensures SameOn(collections, old(collections), reserved)
    {
      ok := *;
      faults := faults + if ok then 0 else 1;
      Land({}, reserved);
    }

    method GetSpec(id: string) returns (content: Option<string>)
      modifies this`faults
      ensures faults >= old(faults)
      ensures content.None? && id in specs ==> faults > old(faults)
      ensures content.Some? ==> id in specs && specs[id] == content.value
    {
      content := None;
      var answered: bool := *;
      if answered && id in specs {
        content := Some(specs[id]);
      }
      faults := faults + if answered then 0 else 1;
    }

    method UpdateSpec(id: string, content: string) returns (ok: bool)
      modifies this`specs, this`faults
      ensures faults == old(faults) + if ok then 0 else 1
      ensures ok ==> specs == old(specs)[id := content]
      ensures SameBut(specs, old(specs), {id})
      ensures id in old(specs) ==> id in specs
    {
      ok := *;
      var stored: string := *;
      if ok {
        specs := specs[id := content];
      } else {
        faults := faults + 1;
        if * {
          specs := specs[id := stored];
        }
      }
    }

    /** Loads the stored set first, so an answer carries what the call found. */
    method ReconcileBundle(id: string, content: string) returns (reply: BundleReply, prior: string)
      modifies this`specs, this`faults
      ensures faults >= old(faults)
      ensures !reply.Reconciled? && id in old(specs) ==> faults > old(faults)
      ensures id in old(specs) ==> id in specs
      ensures !reply.ReconcileThrew? ==> id in old(specs) && prior == old(specs)[id]
      ensures reply.Reconciled? ==> specs == old(specs)[id := content] && reply.changed == (prior != content)
      ensures SameBut(specs, old(specs), {id})
    {
      reply, prior := ReconcileThrew, "";
      if id in specs {
        prior := specs[id];
        var ok := UpdateSpec(id, content);
        if ok {
          reply := Reconciled(prior != content);
        } else if * {
          reply := VerificationNeeded;
        }
      }
    }

    /** Creates a specification, or adopts one that an earlier run left under the same name. */
    method UploadSpec(content: string) returns (reply: UploadReply)
      modifies this`specs, this`faults
      ensures faults >= old(faults)
      ensures faults == old(faults) ==> reply.Uploaded? && reply.verified && specs == old(specs)[reply.id := content]
      ensures reply.Uploaded? && reply.created ==> reply.id !in old(specs) && specs == old(specs)[reply.id := content]
      ensures reply.Uploaded? && !reply.created ==> reply.id in old(specs) && SameBut(specs, old(specs), {reply.id})
    {
      var id: string := *;
      var stored: string := *;
      var verified: bool := *;
      reply := UploadThrew;
      if id !in specs {
        if * {
          specs := specs[id := content];
          reply := Uploaded(id, true, verified);
        } else if * {
          specs := specs[id := content];
        }
      } else if * {
        specs := specs[id := stored];
        if * {
          reply := Uploaded(id, false, verified);
        }
      }
      faults := faults + if reply.Uploaded? && verified && specs[reply.id] == content then 0 else 1;
    }

    /** A missing specification counts as deleted. */
    method DeleteSpec(id: string) returns (ok: bool)
      modifies this`specs, this`faults
      ensures faults == old(faults) + if ok then 0 else 1
      ensures specs == old(specs) || specs == old(specs) - {id}
      ensures ok ==> specs == old(specs) - {id}
    {
      ok := *;
      var gone: bool := *;
      if ok || gone {
        specs := specs - {id};
      }
      faults := faults + if ok then 0 else 1;
    }
  }
}
