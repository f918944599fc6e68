/**
 What `validate` accepts, operation by operation, in terms of the file tree and the digests alone; and what follows
 for the content that a list of operations removes or overwrites.
 */
module Acceptance {
  import opened Bytes
  import opened ChangeSet
  import opened ChangeSetValidate
  import opened Wrappers

  // ---------- Digests ----------

  /** The text with one line feed for each of its line breaks CR LF and CR. */
  lemma {:induction false} UnixNewlinesMeans(a: string, b: string)
    requires '\r' !in a
    ensures UnixNewlines(a) == a
    ensures UnixNewlines(a + "\r\n" + b) == a + "\n" + UnixNewlines(b)
    ensures (b == "" || b[0] != '\n') ==> UnixNewlines(a + "\r" + b) == a + "\n" + UnixNewlines(b)
  {
    if a == "" {
      assert "" + "\r\n" + b == "\r\n" + b && ("\r\n" + b)[2..] == b;
      assert "" + "\r" + b == "\r" + b && ("\r" + b)[1..] == b;
      assert "" + "\n" + UnixNewlines(b) == "\n" + UnixNewlines(b);
    } else {
      UnixNewlinesMeans(a[1..], b);
      assert a == [a[0]] + a[1..];
      assert a + "\r\n" + b == [a[0]] + (a[1..] + "\r\n" + b);
      assert a + "\r" + b == [a[0]] + (a[1..] + "\r" + b);
      assert a + "\n" + UnixNewlines(b) == [a[0]] + (a[1..] + "\n" + UnixNewlines(b));
    }
  }

  /**
   The digest is that of the content, or that of its text with single line feeds; content that is no UTF-8 text has
   only the first.
   */
  predicate HasDigest(k: Codecs, data: Bytes, expected: Option<string>) {
    && expected.Some?
    && (|| expected.value == k.hex(k.sha256(data))
        || (&& k.decode("utf-8", data).Some?
            && expected.value == k.hex(k.sha256(k.encodeUtf8(UnixNewlines(k.decode("utf-8", data).value))))))
  }

  lemma MatchesMeans(k: Codecs, data: Bytes, expected: Option<string>)
    ensures Matches(k, data, expected) <==> HasDigest(k, data, expected)
  {
    hide UnixNewlines;
  }

  // ---------- One operation on one tree ----------

  /** A create is ready exactly on an absent path, and done where its content is there already. */
  lemma CreateOn(k: Codecs, tree: Tree, o: ChangeOperation)
    requires LinesOk(o) && o.op == Create
    ensures var result := Perform(k, tree, o);
            var payload := if o.contentB64.None? then None else k.unb64(o.contentB64.value);
            && (o.path !in tree ==>
                  result == Success((if payload.Some? then tree[o.path := payload.value] else tree, Ready)))
            && (o.path in tree && HasDigest(k, tree[o.path], o.after) ==> result == Success((tree, Idempotent)))
            && (o.path in tree && !HasDigest(k, tree[o.path], o.after) ==> result == Failure(TargetExists))
  {
    hide Matches, HasDigest;
    if o.path in tree {
      MatchesMeans(k, tree[o.path], o.after);
    } else {
      assert tree - {o.path} == tree;
    }
  }

  /** A delete is ready exactly on content that has its `before` digest, and done where the path is absent. */
  lemma DeleteOn(k: Codecs, tree: Tree, o: ChangeOperation)
    requires LinesOk(o) && o.op == Delete
    ensures var result := Perform(k, tree, o);
            && (o.path !in tree ==> result == Success((tree, Idempotent)))
            && (o.path in tree && HasDigest(k, tree[o.path], o.before) ==> result == Success((tree - {o.path}, Ready)))
            && (o.path in tree && !HasDigest(k, tree[o.path], o.before) ==> result == Failure(StaleSource))
  {
    hide Matches, HasDigest;
    if o.path in tree {
      MatchesMeans(k, tree[o.path], o.before);
    }
  }

  /**
   A rename is ready exactly on content that has its `before` digest with nothing at the destination, and done where
   the path is absent and the destination has its `after` digest.
   */
  lemma RenameOn(k: Codecs, tree: Tree, o: ChangeOperation)
    requires LinesOk(o) && o.op == Rename
    ensures var result, dest := Perform(k, tree, o), o.dest.value;
            && (o.path !in tree && dest in tree && HasDigest(k, tree[dest], o.after) ==>
                  result == Success((tree, Idempotent)))
            && (o.path !in tree && !(dest in tree && HasDigest(k, tree[dest], o.after)) ==>
                  result == Failure(SourceMissing))
            && (o.path in tree && !HasDigest(k, tree[o.path], o.before) ==> result == Failure(StaleSource))
            && (o.path in tree && HasDigest(k, tree[o.path], o.before) && dest in tree ==>
                  result == Failure(RenameDestinationExists))
            && (o.path in tree && HasDigest(k, tree[o.path], o.before) && dest !in tree ==>
                  result == Success((tree[dest := tree[o.path]] - {o.path}, Ready)))
  {
    hide Matches, HasDigest;
    if o.path in tree {
      MatchesMeans(k, tree[o.path], o.before);
    }
    if o.dest.value in tree {
      MatchesMeans(k, tree[o.dest.value], o.after);
    }
  }

  /**
   A replacement is done on content that has its `after` digest; otherwise it is ready exactly on content that has
   its `before` digest, when the new content can be made and has its `after` digest.
   */
  lemma ReplaceOn(k: Codecs, tree: Tree, o: ChangeOperation)
    requires LinesOk(o) && o.op == ReplaceRange
    ensures var result := Perform(k, tree, o);
            && (o.path !in tree ==> result == Failure(SourceMissing))
            && (o.path in tree && HasDigest(k, tree[o.path], o.after) ==> result == Success((tree, Idempotent)))
            && (o.path in tree && !HasDigest(k, tree[o.path], o.after) ==>
                  var updated := Replace(k, tree[o.path], o);
                  && (!HasDigest(k, tree[o.path], o.before) ==> result == Failure(StaleSource))
                  && (HasDigest(k, tree[o.path], o.before) ==>
                        && (updated.Failure? ==> result == Failure(updated.error))
                        && (updated.Success? && !HasDigest(k, updated.value, o.after) ==>
                              result == Failure(AfterHashMismatch))
                        && (updated.Success? && HasDigest(k, updated.value, o.after) ==>
                              result == Success((tree[o.path := updated.value], Ready)))))
  {
    hide Matches, HasDigest, Replace;
    if o.path in tree {
      MatchesMeans(k, tree[o.path], o.after);
      MatchesMeans(k, tree[o.path], o.before);
      if Replace(k, tree[o.path], o).Success? {
        MatchesMeans(k, Replace(k, tree[o.path], o).value, o.after);
      }
    }
  }

  // ---------- The whole validation ----------

  lemma NothingShown(tree: Tree)
    ensures Shows(tree, map[], tree)
  {
  }

  /**
   What validation accepts: a changeset of this repository, of the lease and the token if the caller names any, whose
   operations can be performed one after another on the tree; it then reports what performing them reports.
   */
  lemma ValidateIff(k: Codecs, c: ChangeSet, root: string, lease: Option<string>, fence: Option<string>, tree: Tree)
    requires forall o | o in c.operations :: LinesOk(o)
    ensures var result, performed := Validate(k, c, root, lease, fence, tree), PerformAll(k, tree, c.operations);
            && (result.Success? <==> && root == c.repository && lease in {None, Some(c.leaseId)}
                                     && fence in {None, Some(c.fencingToken)} && performed.Success?)
            && (result.Success? ==> result.value == performed.value.1)
            && (result.Failure? ==>
                  result.error == if root != c.repository then RepositoryMismatch
                                  else if lease !in {None, Some(c.leaseId)} then LeaseMismatch
                                  else if fence !in {None, Some(c.fencingToken)} then FenceMismatch
                                  else performed.error)
  {
    hide Simulate, PerformAll, LinesOk, Shows;
    NothingShown(tree);
    SimulationRefines(k, tree, map[], tree, c.operations);
  }

  // ---------- Nothing is lost unseen ----------

  /** What one operation removes or overwrites is the content of its own path, and had its `before` digest. */
  lemma LossIsSeen(k: Codecs, tree: Tree, o: ChangeOperation, p: string)
    requires LinesOk(o) && Perform(k, tree, o).Success? && p in tree
    requires var after := Perform(k, tree, o).value.0; !(p in after && after[p] == tree[p])
    ensures o.path == p && o.op != Create && HasDigest(k, tree[p], o.before) && Perform(k, tree, o).value.1 == Ready
  {
    hide Perform, HasDigest, Replace;
    match o.op {
      case Create => CreateOn(k, tree, o);
      case ReplaceRange => ReplaceOn(k, tree, o);
      case Rename => RenameOn(k, tree, o);
      case Delete => DeleteOn(k, tree, o);
    }
  }

  lemma PrefixPerformed(k: Codecs, tree: Tree, ops: seq<ChangeOperation>, i: nat)
    requires (forall o | o in ops :: LinesOk(o)) && ops != [] && Perform(k, tree, ops[0]).Success? && i < |ops|
    requires PerformAll(k, Perform(k, tree, ops[0]).value.0, ops[1..][..i]).Success?
    ensures forall o | o in ops[..i + 1] :: LinesOk(o)
    ensures PerformAll(k, tree, ops[..i + 1]).Success?
    ensures PerformAll(k, tree, ops[..i + 1]).value.0
            == PerformAll(k, Perform(k, tree, ops[0]).value.0, ops[1..][..i]).value.0
  {
    hide Perform, LinesOk;
    assert ops[..i + 1][1..] == ops[1..][..i] && ops[..i + 1][0] == ops[0];
  }

  /**
   Whatever a list of operations removes or overwrites was seen: if the content of a path is not there at the end,
   then one of the operations, on that very path, found exactly this content there, and the content had the `before`
   digest of that operation.
   */
  lemma {:induction false} NothingLostUnseen(k: Codecs, tree: Tree, ops: seq<ChangeOperation>, p: string)
    returns (i: nat)
    requires (forall o | o in ops :: LinesOk(o)) && PerformAll(k, tree, ops).Success? && p in tree
    requires var after := PerformAll(k, tree, ops).value.0; !(p in after && after[p] == tree[p])
    ensures i < |ops| && ops[i].path == p && ops[i].op != Create && HasDigest(k, tree[p], ops[i].before)
    ensures (forall o | o in ops[..i] :: LinesOk(o)) && PerformAll(k, tree, ops[..i]).Success?
    ensures var state := PerformAll(k, tree, ops[..i]).value.0;
            p in state && state[p] == tree[p] && Perform(k, state, ops[i]).Success?
            && Perform(k, state, ops[i]).value.1 == Ready
    decreases |ops|
  {
    hide Perform, LinesOk, HasDigest;
    if ops == [] {
      assert false;
    } else {
      var next := Perform(k, tree, ops[0]).value.0;
      if p in next && next[p] == tree[p] {
        var rest := NothingLostUnseen(k, next, ops[1..], p);
        PrefixPerformed(k, tree, ops, rest);
        i := rest + 1;
      } else {
        LossIsSeen(k, tree, ops[0], p);
        assert ops[..0] == [];
        i := 0;
      }
    }
  }
}
