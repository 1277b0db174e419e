/**
 mail/dkim-hash.c: the body canonicalisers, run octet by octet over a file. A
 hash context is the sequence of octets it has absorbed; copying a context
 copies that sequence.
 */
module DkimHash {
  import opened Octets
  import opened DkimSimple
  import opened DkimRelaxed

  datatype BodyCanon = CanonSimple | CanonRelaxed

  class CanonState {
    var state: Status
    var ctx: seq<octet>
    var ctxCrlf: seq<octet>
    const file: seq<octet>
    var pos: nat

    constructor (file: seq<octet>)
      ensures this.file == file && pos == 0 && state == Start && ctx == [] && ctxCrlf == []
    {
      this.file := file;
      pos, state, ctx, ctxCrlf := 0, Start, [], [];
    }

    function Snapshot(): Machine
      reads this
    {
      Machine(state, ctx, ctxCrlf)
    }

    method Fgetc() returns (c: int)
      requires pos <= |file|
      modifies `pos
      ensures old(pos) < |file| ==> c == file[old(pos)] && pos == old(pos) + 1
      ensures old(pos) == |file| ==> c == EOF && pos == old(pos)
    {
      if pos < |file| {
        c, pos := file[pos], pos + 1;
      } else {
        c := EOF;
      }
    }

    method Ungetc(c: int)
      requires pos <= |file| && (c != EOF ==> 0 < pos && file[pos - 1] == c)
      modifies `pos
      ensures pos == if c == EOF then old(pos) else old(pos) - 1
    {
      if c != EOF {
        pos := pos - 1;
      }
    }

    /** Peeks at the octet after a CR; the file position does not move. */
    method CanonIsCrlf(c: octet) returns (b: bool)
      requires pos <= |file|
      modifies `pos
      ensures pos == old(pos)
      ensures b <==> c == CR && pos < |file| && file[pos] == LF
    {
      if c == CR {
        var next := Fgetc();
        Ungetc(next);
        return next == LF;
      }
      return false;
    }

    /**
     What the simple canonicaliser knows after the octets consumed, from a
     context that held base: the context holds them all, and the saved context
     is the one to go back to should the file end in a blank line here.
     */
    ghost predicate SimpleInv(base: seq<octet>, consumed: seq<octet>)
      reads this
    {
      && state in {Start, Text, AtCr, AtLf}
      && ctx == base + consumed
      && (state == AtCr <==> EndsWith(consumed, CR))
      && (state == AtLf <==> EndsBlank(consumed))
      && (state == AtCr ==> ctxCrlf == base + DropBlanks(DropCrs(consumed)))
      && (state == AtLf ==> ctxCrlf == base + DropBlanks(consumed))
    }

    method CanonBodySimple(c: int, ghost base: seq<octet>, ghost consumed: seq<octet>)
      requires c == EOF || 0 <= c < 256
      requires SimpleInv(base, consumed)
      modifies `state, `ctx, `ctxCrlf
      ensures c != EOF ==> SimpleInv(base, consumed + [c])
      ensures c == EOF ==> state == End && ctx == base + SimpleForm(consumed)
    {
      if c == EOF {
        if state == AtLf {
          ctx := ctxCrlf;
        }
        ctx := ctx + CRLF;
        state := End;
        Assoc(base, DropBlanks(consumed), CRLF);
        return;
      }
      match state {
        case Start | Text =>
          if c == CR {
            ctxCrlf := ctx;
            state := AtCr;
          }
        case AtCr =>
          if c == LF {
            state := AtLf;
          } else if c != CR {
            state := Start;
          }
        case AtLf =>
          state := if c == CR then AtCr else Start;
        case _ =>
      }
      ctx := ctx + [c];
      assert (consumed + [c])[..|consumed|] == consumed;
      Assoc(base, consumed, [c]);
    }

    method CanonBodyRelaxed(c: int)
      requires c == EOF || 0 <= c < 256
      requires pos <= |file|
      modifies this
      ensures pos == old(pos)
      ensures c != EOF ==> Snapshot() == Step(old(Snapshot()), c, pos < |file| && file[pos] == LF)
      ensures c == EOF ==> Snapshot() == Finish(old(Snapshot()))
    {
      if c == EOF {
        if state == AtLf {
          ctx := ctxCrlf;
        }
        if state != Start {
          ctx := ctx + CRLF;
        }
        state := End;
        return;
      }
      if state == Start {
        state := Text;
      }
      match state {
        case Text =>
          if IsWsp(c) {
            state := Wsp;
            return;
          } else if c == CR {
            ctxCrlf := ctx;
            state := AtCr;
          }
        case Wsp =>
          if IsWsp(c) {
            return;
          }
          var crlf := CanonIsCrlf(c);
          if crlf {
            ctxCrlf := ctx;
            state := AtCr;
          } else {
            ctx := ctx + [SPACE];
            state := Text;
          }
        case AtCr =>
          if IsWsp(c) {
            state := Wsp;
            return;
          } else if c == LF {
            state := AtLf;
          } else if c != CR {
            state := Text;
          }
        case AtLf =>
          if IsWsp(c) {
            state := Wsp;
            return;
          }
          state := if c == CR then AtCr else Text;
        case _ =>
      }
      ctx := ctx + [c];
    }

    /**
     The body pass of dkim_hash: after a header the context is reset and the
     state is Start, otherwise both go on from the failed header pass.
     */
    method DkimHash(fn: BodyCanon, hasHeader: bool) returns (digested: seq<octet>)
      requires pos == 0
      modifies this
      ensures var base := if hasHeader then [] else old(ctx);
              fn == CanonSimple ==> digested == base + SimpleForm(file)
      ensures var m := if hasHeader then Machine(Start, [], old(ctxCrlf)) else Machine(Text, old(ctx), old(ctxCrlf));
              fn == CanonRelaxed ==> digested == CodeRelaxed(m, file)
      ensures fn == CanonRelaxed && Paired(file) ==>
                digested == if hasHeader then CodeForm(file)
                            else old(ctx) + if file == [] then CRLF else CodeForm(file)
    {
      if hasHeader {
        state, ctx := Start, [];
      } else {
        state := Text;
      }
      ghost var base := ctx;
      ghost var m := Snapshot();
      assert base + [] == base;
      while true
        invariant pos <= |file|
        invariant fn == CanonSimple ==> SimpleInv(base, file[..pos])
        invariant fn == CanonRelaxed ==> Run(m, file) == Run(Snapshot(), file[pos..])
        decreases |file| - pos
      {
        ghost var here := pos;
        var c := Fgetc();
        match fn {
          case CanonSimple => CanonBodySimple(c, base, file[..here]);
          case CanonRelaxed => CanonBodyRelaxed(c);
        }
        if c == EOF {
          assert file[..here] == file && file[here..] == [];
          break;
        }
        assert file[..here] + [c] == file[..pos];
        assert file[here..][1..] == file[pos..];
      }
      if fn == CanonRelaxed && Paired(file) {
        if hasHeader {
          CodeRelaxedForm(m, file);
          assert [] + CodeForm(file) == CodeForm(file);
        } else {
          BodyOnlyForm(m.ctx, m.saved, file);
        }
      }
      return ctx;
    }
  }
}
