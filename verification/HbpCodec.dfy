/**
 The HBP receipt chain: sealing rows, and verifying a chain of sealed rows.

 SHA-256 is an arbitrary function to 64 hexadecimal characters. No result assumes that it has no
 collisions: a result that needs one points at the two colliding bodies instead.
 */
module HbpCodec {
  import opened Wrappers

  datatype HbpError = MalformedRow | PartialAppend | InvalidChain

  predicate IsHex64(h: string) {
    |h| == 64 && forall c | c in h :: '0' <= c <= '9' || 'a' <= c <= 'f'
  }

  type Hash = string -> string

  ghost predicate HexHash(sha: Hash) {
    forall s :: IsHex64(sha(s))
  }

  function Genesis(): (h: string)
    ensures IsHex64(h)
  {
    seq(64, _ => '0')
  }

  /** A separator starts with the only '|' it holds. */
  predicate BarSeparator(sep: string) {
    |sep| > 0 && sep[0] == '|' && '|' !in sep[1..]
  }

  function PrevMark(): (sep: string)
    ensures BarSeparator(sep)
  {
    "|prev_event_hash="
  }

  function EventMark(): (sep: string)
    ensures BarSeparator(sep)
  {
    "|event_hash="
  }

  // ---------- Splitting from the right ----------

  predicate OccursAt(s: string, sep: string, i: nat) {
    i + |sep| <= |s| && s[i..i + |sep|] == sep
  }

  /** The rightmost occurrence of `sep` among the start positions below `limit`, or -1. */
  function RightmostBelow(s: string, sep: string, limit: nat): (i: int)
    ensures -1 <= i < limit
    ensures i >= 0 ==> OccursAt(s, sep, i)
    ensures forall j: nat {:trigger OccursAt(s, sep, j)} | i < j < limit :: !OccursAt(s, sep, j)
  {
    if limit == 0 then -1
    else if OccursAt(s, sep, limit - 1) then limit - 1
    else RightmostBelow(s, sep, limit - 1)
  }

  /** `s.rsplit(sep, 1)`; None when the separator is absent. */
  function RSplit(s: string, sep: string): (r: Option<(string, string)>)
    ensures r.Some? ==> s == r.value.0 + sep + r.value.1
  {
    var i := RightmostBelow(s, sep, |s| + 1);
    if i < 0 then None else Some((s[..i], s[i + |sep|..]))
  }

  lemma OccurrenceStartsWithBar(s: string, sep: string, i: nat)
    requires BarSeparator(sep) && OccursAt(s, sep, i)
    ensures s[i] == '|'
  {
    assert s[i] == s[i..i + |sep|][0];
  }

  /** Text before the separator may hold anything, even the separator; text after it may not hold a bar. */
  lemma RSplitJoin(a: string, sep: string, b: string)
    requires BarSeparator(sep) && '|' !in b
    ensures RSplit(a + sep + b, sep) == Some((a, b))
  {
    var s := a + sep + b;
    assert OccursAt(s, sep, |a|) by {
      assert s[|a|..|a| + |sep|] == sep;
    }
    forall j: nat | |a| < j < |s| ensures s[j] != '|' {
      if j < |a| + |sep| {
        assert s[j] == sep[1..][j - |a| - 1];
      } else {
        assert s[j] == b[j - |a| - |sep|];
      }
    }
    var i := RightmostBelow(s, sep, |s| + 1);
    OccurrenceStartsWithBar(s, sep, i);
    assert i == |a|;
    assert s[..|a|] == a && s[|a| + |sep|..] == b;
  }

  lemma RSplitNone(s: string, sep: string)
    ensures RSplit(s, sep) == None <==> forall i: nat :: !OccursAt(s, sep, i)
  {
    var i := RightmostBelow(s, sep, |s| + 1);
    if i >= 0 {
      assert OccursAt(s, sep, i);
    }
  }

  // ---------- Sealing ----------

  function BodyOf(text: string, previous: string): string {
    text + PrevMark() + previous
  }

  function Receipt(body: string, hash: string): string {
    body + EventMark() + hash
  }

  function Link(sha: Hash, text: string, previous: string): string {
    Receipt(BodyOf(text, previous), sha(BodyOf(text, previous)))
  }

  predicate HasLineBreak(text: string) {
    '\n' in text || '\r' in text
  }

  function SealReceipt(sha: Hash, text: string, previous: string): Result<string, HbpError> {
    if HasLineBreak(text) then Failure(MalformedRow) else Success(Link(sha, text, previous))
  }

  /** The hash the next row links to. */
  function Tip(sha: Hash, texts: seq<string>): string {
    if texts == [] then Genesis()
    else sha(BodyOf(texts[|texts| - 1], Tip(sha, texts[..|texts| - 1])))
  }

  lemma TipIsHex(sha: Hash, texts: seq<string>)
    requires HexHash(sha)
    ensures IsHex64(Tip(sha, texts))
  {
  }

  /** The rows of a chain over `texts`, each linked to the one before it. */
  function Rows(sha: Hash, texts: seq<string>): (rows: seq<string>)
    ensures |rows| == |texts|
  {
    if texts == [] then []
    else
      var n := |texts| - 1;
      Rows(sha, texts[..n]) + [Link(sha, texts[n], Tip(sha, texts[..n]))]
  }

  /** Sealing the texts one after another, each with the hash the previous receipt ends in. */
  method SealAll(sha: Hash, texts: seq<string>) returns (result: Result<seq<string>, HbpError>)
    requires HexHash(sha)
    ensures result.Success? <==> forall i | 0 <= i < |texts| :: !HasLineBreak(texts[i])
    ensures result.Success? ==> result.value == Rows(sha, texts)
    ensures result.Failure? ==> result.error == MalformedRow
  {
    hide HasLineBreak, Link, BodyOf, Rows, Tip;
    var rows, previous := [], Genesis();
    RowsStep(sha, texts, 0);
    for i := 0 to |texts|
      invariant forall j | 0 <= j < i :: !HasLineBreak(texts[j])
      invariant rows == Rows(sha, texts[..i]) && previous == Tip(sha, texts[..i])
    {
      var sealed := SealReceipt(sha, texts[i], previous);
      if sealed.Failure? {
        return Failure(sealed.error);
      }
      RowsStep(sha, texts, i + 1);
      TailIsHash(sha, texts[i], previous);
      rows := rows + [sealed.value];
      previous := sealed.value[|sealed.value| - 64..];
    }
    assert texts[..|texts|] == texts;
    result := Success(rows);
  }

  lemma RowsStep(sha: Hash, texts: seq<string>, i: nat)
    requires i <= |texts|
    ensures i == 0 ==> Rows(sha, texts[..i]) == [] && Tip(sha, texts[..i]) == Genesis()
    ensures i > 0 ==>
      var tip := Tip(sha, texts[..i - 1]);
      Rows(sha, texts[..i]) == Rows(sha, texts[..i - 1]) + [Link(sha, texts[i - 1], tip)]
      && Tip(sha, texts[..i]) == sha(BodyOf(texts[i - 1], tip))
  {
    hide Link, BodyOf;
    if i > 0 {
      assert texts[..i][..i - 1] == texts[..i - 1];
    }
  }

  lemma TailIsHash(sha: Hash, text: string, previous: string)
    requires HexHash(sha)
    ensures var row := Link(sha, text, previous);
            |row| >= 64 && row[|row| - 64..] == sha(BodyOf(text, previous))
  {
    var h := sha(BodyOf(text, previous));
    assert |h| == 64;
  }

  // ---------- Verifying ----------

  function VerifyRow(sha: Hash, previous: string, row: string): Result<string, HbpError> {
    var outer := RSplit(row, EventMark());
    if outer.None? then Failure(PartialAppend)
    else
      var body, claimed := outer.value.0, outer.value.1;
      var inner := RSplit(body, PrevMark());
      if inner.None? then Failure(PartialAppend)
      else if inner.value.1 != previous || |claimed| != 64 || sha(body) != claimed then Failure(InvalidChain)
      else Success(claimed)
  }

  function Verify(sha: Hash, rows: seq<string>): Result<string, HbpError> {
    if rows == [] then Success(Genesis())
    else
      var previous :- Verify(sha, rows[..|rows| - 1]);
      VerifyRow(sha, previous, rows[|rows| - 1])
  }

  method VerifyChain(sha: Hash, rows: seq<string>) returns (result: Result<string, HbpError>)
    ensures result == Verify(sha, rows)
  {
    var previous := Genesis();
    for i := 0 to |rows|
      invariant Verify(sha, rows[..i]) == Success(previous)
    {
      assert rows[..i + 1][..i] == rows[..i];
      var next := VerifyRow(sha, previous, rows[i]);
      if next.Failure? {
        FirstFailureStands(sha, rows, i + 1);
        return next;
      }
      previous := next.value;
    }
    assert rows[..|rows|] == rows;
    result := Success(previous);
  }

  lemma {:induction false} FirstFailureStands(sha: Hash, rows: seq<string>, n: nat)
    requires n <= |rows| && Verify(sha, rows[..n]).Failure?
    ensures Verify(sha, rows) == Verify(sha, rows[..n])
  {
    if n == |rows| {
      assert rows[..n] == rows;
    } else {
      var m := |rows| - 1;
      assert rows[..m][..n] == rows[..n];
      FirstFailureStands(sha, rows[..m], n);
    }
  }

  /** A row is accepted after `previous` exactly when it is some text linked to `previous`. */
  lemma RowAcceptedIffLinked(sha: Hash, previous: string, row: string, h: string)
    requires HexHash(sha) && IsHex64(previous)
    ensures VerifyRow(sha, previous, row) == Success(h)
            <==> exists text :: row == Link(sha, text, previous) && h == sha(BodyOf(text, previous))
  {
    hide RSplit;
    if VerifyRow(sha, previous, row) == Success(h) {
      var (body, claimed) := RSplit(row, EventMark()).value;
      var (text, linked) := RSplit(body, PrevMark()).value;
      assert row == Link(sha, text, previous);
    }
    forall text | row == Link(sha, text, previous) && h == sha(BodyOf(text, previous))
      ensures VerifyRow(sha, previous, row) == Success(h)
    {
      assert IsHex64(h);
      RSplitJoin(BodyOf(text, previous), EventMark(), h);
      RSplitJoin(text, PrevMark(), previous);
    }
  }

  /**
   How other rows are refused: as a partial append exactly when the last event mark, or a mark of the previous event
   before it, is missing; and otherwise as an invalid chain.
   */
  lemma RowRefused(sha: Hash, previous: string, row: string)
    ensures var result := VerifyRow(sha, previous, row);
            && (result.Failure? ==> result.error in {PartialAppend, InvalidChain})
            && (result == Failure(PartialAppend)
                <==> forall body, claimed | RSplit(row, EventMark()) == Some((body, claimed)) ::
                       forall i: nat :: !OccursAt(body, PrevMark(), i))
  {
    hide RSplit;
    RSplitNone(row, EventMark());
    if RSplit(row, EventMark()).Some? {
      RSplitNone(RSplit(row, EventMark()).value.0, PrevMark());
    }
  }

  lemma NothingSealed(sha: Hash)
    ensures Rows(sha, []) == [] && Tip(sha, []) == Genesis() && Verify(sha, []) == Success(Genesis())
  {
    hide Genesis;
  }

  lemma SealOneMore(sha: Hash, texts: seq<string>, text: string)
    ensures Rows(sha, texts + [text]) == Rows(sha, texts) + [Link(sha, text, Tip(sha, texts))]
    ensures Tip(sha, texts + [text]) == sha(BodyOf(text, Tip(sha, texts)))
  {
    hide Link, BodyOf, Genesis;
    assert (texts + [text])[..|texts|] == texts;
  }

  lemma VerifyOneMore(sha: Hash, rows: seq<string>, row: string)
    ensures Verify(sha, rows).Success? ==>
              Verify(sha, rows + [row]) == VerifyRow(sha, Verify(sha, rows).value, row)
    ensures Verify(sha, rows).Failure? ==> Verify(sha, rows + [row]) == Verify(sha, rows)
  {
    hide VerifyRow, Genesis;
    assert (rows + [row])[..|rows|] == rows;
  }

  /** Every sealed chain verifies, whatever separators its texts hold, and ends in its last hash. */
  lemma {:induction false} SealedVerifies(sha: Hash, texts: seq<string>)
    requires HexHash(sha)
    ensures Verify(sha, Rows(sha, texts)) == Success(Tip(sha, texts))
  {
    hide Link, BodyOf, VerifyRow, Verify, Rows, Tip, HexHash, Genesis, IsHex64;
    if texts == [] {
      NothingSealed(sha);
    } else {
      var front, last := texts[..|texts| - 1], texts[|texts| - 1];
      assert texts == front + [last];
      SealedVerifies(sha, front);
      TipIsHex(sha, front);
      var tip := Tip(sha, front);
      SealOneMore(sha, front, last);
      VerifyOneMore(sha, Rows(sha, front), Link(sha, last, tip));
      RowAcceptedIffLinked(sha, tip, Link(sha, last, tip), sha(BodyOf(last, tip)));
    }
  }

  /** Only chained rows verify: an accepted list is the chain over some list of texts. */
  lemma {:induction false} VerifiedIsSealed(sha: Hash, rows: seq<string>) returns (texts: seq<string>)
    requires HexHash(sha)
    requires Verify(sha, rows).Success?
    ensures rows == Rows(sha, texts) && Verify(sha, rows).value == Tip(sha, texts)
  {
    hide Link, BodyOf, VerifyRow, Verify, Rows, Tip, HexHash, Genesis, IsHex64;
    if rows == [] {
      NothingSealed(sha);
      texts := [];
    } else {
      var front, last := rows[..|rows| - 1], rows[|rows| - 1];
      assert rows == front + [last];
      VerifyOneMore(sha, front, last);
      var before := VerifiedIsSealed(sha, front);
      var tip := Tip(sha, before);
      TipIsHex(sha, before);
      RowAcceptedIffLinked(sha, tip, last, Verify(sha, rows).value);
      var text :| last == Link(sha, text, tip) && Verify(sha, rows).value == sha(BodyOf(text, tip));
      SealOneMore(sha, before, text);
      texts := before + [text];
    }
  }

  /** `verify_chain` does not repeat the line-break check of `seal_receipt`. */
  lemma VerifyAllowsLineBreaks(sha: Hash)
    requires HexHash(sha)
    ensures SealReceipt(sha, "a\nb", Genesis()).Failure?
    ensures Verify(sha, Rows(sha, ["a\nb"])).Success?
  {
    SealedVerifies(sha, ["a\nb"]);
    assert "a\nb"[1] == '\n';
  }

  ghost predicate NoLineBreaks(texts: seq<string>) {
    forall text | text in texts :: !HasLineBreak(text)
  }

  lemma MarksHaveNoBreak()
    ensures !HasLineBreak(PrevMark()) && !HasLineBreak(EventMark())
  {
  }

  lemma HexHasNoBreak(h: string)
    requires IsHex64(h)
    ensures !HasLineBreak(h)
  {
  }

  /** A row breaks exactly where its text does. */
  lemma LinkBreaksIff(sha: Hash, text: string, previous: string)
    requires HexHash(sha) && IsHex64(previous)
    ensures HasLineBreak(Link(sha, text, previous)) <==> HasLineBreak(text)
  {
    hide PrevMark, EventMark, IsHex64;
    MarksHaveNoBreak();
    HexHasNoBreak(previous);
    HexHasNoBreak(sha(BodyOf(text, previous)));
  }

  lemma {:induction false} RowsBreakIff(sha: Hash, texts: seq<string>)
    requires HexHash(sha)
    ensures NoLineBreaks(Rows(sha, texts)) <==> NoLineBreaks(texts)
  {
    hide Link, BodyOf, HasLineBreak;
    if texts != [] {
      var front, last := texts[..|texts| - 1], texts[|texts| - 1];
      RowsBreakIff(sha, front);
      TipIsHex(sha, front);
      LinkBreaksIff(sha, last, Tip(sha, front));
      SnocBreaks(front, last);
      SnocBreaks(Rows(sha, front), Link(sha, last, Tip(sha, front)));
      assert texts == front + [last];
    }
  }

  lemma SnocBreaks(texts: seq<string>, text: string)
    ensures NoLineBreaks(texts + [text]) <==> NoLineBreaks(texts) && !HasLineBreak(text)
  {
    hide HasLineBreak;
    assert forall t :: t in texts + [text] <==> t in texts || t == text;
  }

  /** Rows are what sealing makes of some texts if and only if they verify and no row holds a line break. */
  lemma SealableIff(sha: Hash, rows: seq<string>)
    requires HexHash(sha)
    ensures (exists texts | NoLineBreaks(texts) :: rows == Rows(sha, texts))
            <==> Verify(sha, rows).Success? && NoLineBreaks(rows)
  {
    hide Rows, Verify, NoLineBreaks;
    forall texts | NoLineBreaks(texts) && rows == Rows(sha, texts)
      ensures Verify(sha, rows).Success? && NoLineBreaks(rows)
    {
      SealedVerifies(sha, texts);
      RowsBreakIff(sha, texts);
    }
    if Verify(sha, rows).Success? && NoLineBreaks(rows) {
      var texts := VerifiedIsSealed(sha, rows);
      RowsBreakIff(sha, texts);
    }
  }

  // ---------- Binding ----------

  /** The hashed part of a row. */
  function Body(row: string): string {
    var split := RSplit(row, EventMark());
    if split.None? then "" else split.value.0
  }

  ghost function Bodies(rows: seq<string>): set<string> {
    set row | row in rows :: Body(row)
  }

  /** Two different hashed bodies, one of each chain, have the same hash. */
  ghost predicate Collides(sha: Hash, a: seq<string>, b: seq<string>) {
    exists x, y :: x in Bodies(a) && y in Bodies(b) && x != y && sha(x) == sha(y)
  }

  ghost predicate HitsGenesis(sha: Hash, a: seq<string>) {
    exists x :: x in Bodies(a) && sha(x) == Genesis()
  }

  lemma LastRow(sha: Hash, rows: seq<string>)
    requires rows != [] && Verify(sha, rows).Success?
    ensures var n, h := |rows| - 1, Verify(sha, rows).value;
            Verify(sha, rows[..n]).Success?
            && rows[n] == Receipt(Body(rows[n]), h) && sha(Body(rows[n])) == h
            && RSplit(Body(rows[n]), PrevMark()).Some?
            && RSplit(Body(rows[n]), PrevMark()).value.1 == Verify(sha, rows[..n]).value
            && Body(rows[n]) in Bodies(rows)
  {
    hide RSplit, PrevMark, EventMark;
  }

  /**
   The final hash binds the whole chain: two verified chains with the same final hash are equal, or
   two of their bodies collide, or (only for different lengths) a body hashes to the genesis value.
   */
  lemma {:induction false} ChainBinding(sha: Hash, a: seq<string>, b: seq<string>)
    requires Verify(sha, a).Success? && Verify(sha, a) == Verify(sha, b)
    ensures a == b || Collides(sha, a, b)
            || (|a| != |b| && (HitsGenesis(sha, a) || HitsGenesis(sha, b)))
    decreases |a|
  {
    if a == [] && b != [] {
      LastRow(sha, b);
    } else if a != [] && b == [] {
      LastRow(sha, a);
    } else if a != [] && b != [] {
      var m, n := |a| - 1, |b| - 1;
      LastRow(sha, a);
      LastRow(sha, b);
      if Body(a[m]) != Body(b[n]) {
        CollisionShown(sha, a, b, Body(a[m]), Body(b[n]));
      } else {
        ChainBinding(sha, a[..m], b[..n]);
        Widen(sha, a, b, m, n);
        SameEnds(a, b);
      }
    }
  }

  lemma CollisionShown(sha: Hash, a: seq<string>, b: seq<string>, x: string, y: string)
    requires x in Bodies(a) && y in Bodies(b) && x != y && sha(x) == sha(y)
    ensures Collides(sha, a, b)
  {
  }

  lemma Widen(sha: Hash, a: seq<string>, b: seq<string>, m: nat, n: nat)
    requires m <= |a| && n <= |b|
    ensures Collides(sha, a[..m], b[..n]) ==> Collides(sha, a, b)
    ensures HitsGenesis(sha, a[..m]) ==> HitsGenesis(sha, a)
    ensures HitsGenesis(sha, b[..n]) ==> HitsGenesis(sha, b)
  {
    hide Bodies;
    PrefixBodies(a, m);
    PrefixBodies(b, n);
  }

  lemma PrefixBodies(a: seq<string>, m: nat)
    requires m <= |a|
    ensures Bodies(a[..m]) <= Bodies(a)
  {
  }

  lemma SameEnds(a: seq<string>, b: seq<string>)
    requires a != [] && b != [] && a[|a| - 1] == b[|b| - 1]
    ensures a[..|a| - 1] == b[..|b| - 1] ==> a == b
  {
    assert a == a[..|a| - 1] + [a[|a| - 1]] && b == b[..|b| - 1] + [b[|b| - 1]];
  }
}
