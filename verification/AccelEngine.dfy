/** GEMMs left running by the engine (dav2_engine.c:96-142). */
module AccelEngine {
  import opened AccelMath
  import opened Arith
  import opened Words
  import opened Accel

  /** One GEMM of the engine: its operands, its result, and how large it is. */
  datatype Request = Request(src: Source, o: Operands, K: nat, M: nat, acc: array<int>)

  /** What the engine asks of its callers: operands that are there, and a result of the right size elsewhere. */
  ghost predicate Sound(q: Request)
    reads q.src, q.src.v
  {
    && q.src.Valid() && q.src.done == q.src.total && q.o.a == q.src.final
    && Fits(q.o, q.K, q.M) && q.acc.Length == q.o.N * q.M && q.acc != q.src.v
  }

  class Engine {
    const driver: Driver
    var pending: bool                      // g_pend.pending
    var left: Request                      // the rest of g_pend

    constructor (driver: Driver, q: Request)
      ensures this.driver == driver && !pending
    {
      this.driver, pending, left := driver, false, q;
    }

    /** A pending GEMM is the one the driver has left running. */
    ghost predicate Valid()
      reads this, driver, driver.block, left.src, left.src.v, left.acc
    {
      && driver.Valid()
      && (pending ==> Sound(left) && driver.LeftRunning(left.acc, left.o, left.K))
    }

    /** gemm_i32_finish: whatever became of the job, the product is there. */
    method Finish()
      requires Valid()
      modifies this`pending, driver`ok, driver`pending, driver.block, left.acc, left.src`done, left.src.v
      ensures Valid() && !pending
      ensures old(pending) ==> !driver.pending && IsProduct(left.acc[..], left.o, left.K)
      ensures !old(pending) ==> left.acc[..] == old(left.acc[..]) && driver.block.running == old(driver.block.running)
      ensures left.src.done == old(left.src.done) && left.src.v[..] == old(left.src.v[..])
    {
      if !pending { return; }
      pending := false;
      var f := driver.Finish(left.src);
      if !f { GemmCpu(left.o, left.acc, left.K, left.M); }
    }

    /** gemm_i32_start: it completes the one before, and leaves this one running, or done. */
    method Start(q: Request, aligned: bool)
      requires Valid() && Sound(q) && q.src.v !in driver.block.Outs() && (pending ==> q.src.v != left.acc && q.acc != left.acc && left.src.v != q.acc)
      modifies this, driver`ok, driver`defer, driver`pending, driver.block, driver.block.Outs(), left.acc, left.src`done, left.src.v,
        q.acc, q.src`done, q.src.v
      ensures Valid() && left in {q, old(left)} && (pending ==> left == q) && (!pending ==> IsProduct(q.acc[..], q.o, q.K))
      ensures old(pending) ==> IsProduct(old(left).acc[..], old(left).o, old(left).K)
    {
      Finish();
      var r := driver.GemmRawAsync(q.src, q.o, q.K, q.M, q.acc, aligned);
      if r == 2 {
        pending, left := true, q;
      } else if r == 0 {
        GemmCpu(q.o, q.acc, q.K, q.M);
      }
    }

    /** Started and finished, the product is exact for every pattern of declines and failures; with small operands as integers. */
    method Gemm(q: Request, aligned: bool)
      requires Valid() && Sound(q) && q.src.v !in driver.block.Outs() && (pending ==> q.src.v != left.acc && q.acc != left.acc && left.src.v != q.acc)
      modifies this, driver`ok, driver`defer, driver`pending, driver.block, driver.block.Outs(), left.acc, left.src`done, left.src.v,
        q.acc, q.src`done, q.src.v
      ensures Valid() && !pending && IsProduct(q.acc[..], q.o, q.K)
      ensures Small(q.o.a, q.o.w) && q.K <= 2064 ==> forall i :: 0 <= i < q.acc.Length ==> q.acc[i] == Exact(q.o, q.K, i)
    {
      Start(q, aligned);
      Finish();
      if Small(q.o.a, q.o.w) && q.K <= 2064 {
        forall i | 0 <= i < q.acc.Length ensures q.acc[i] == Exact(q.o, q.K, i) { ProductExact(q.acc[..], q.o, q.K, i); }
      }
    }
  }
}