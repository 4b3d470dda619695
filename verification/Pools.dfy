/** The pools of one thread: what is lent comes back, and no more is ever made than was lent at once. */
module Pools {
  import opened Bytes
  import opened Inflating

  const CONNECTION_BUF_SIZE: nat := 0x1_0000

  /** Connection buffers. */
  class BufPool {
    var idle: seq<array<byte>>
    ghost var lent: set<array<byte>>
    /** The largest number ever lent at once. */
    ghost var peak: nat

    ghost predicate Valid()
      reads this
    {
      && |idle| + |lent| == peak
      && (forall i, j :: 0 <= i < j < |idle| ==> idle[i] != idle[j])
      && (forall i :: 0 <= i < |idle| ==> idle[i] !in lent && idle[i].Length == CONNECTION_BUF_SIZE)
      && (forall b :: b in lent ==> b.Length == CONNECTION_BUF_SIZE)
    }

    constructor ()
      ensures Valid() && idle == [] && lent == {} && peak == 0
    {
      idle, lent, peak := [], {}, 0;
    }

    /** The idle buffers, as objects. */
    ghost function Arrays(): set<object>
      reads this
    {
      set i | 0 <= i < |idle| :: idle[i] as object
    }

    method Take() returns (buf: array<byte>)
      requires Valid()
      modifies this
      ensures Valid() && buf !in old(lent) && lent == old(lent) + {buf} && idle <= old(idle)
      ensures buf.Length == CONNECTION_BUF_SIZE && (buf in old(idle) || fresh(buf))
      ensures peak == Max(old(peak), |lent|)
    {
      if idle == [] {
        buf := new byte[CONNECTION_BUF_SIZE];
        assert forall b :: b in lent ==> allocated(b);
      } else {
        buf := idle[|idle| - 1];
        idle := idle[..|idle| - 1];
      }
      lent := lent + {buf};
      peak := Max(peak, |lent|);
    }

    method Return(buf: array<byte>)
      requires Valid() && buf in lent
      modifies this
      ensures Valid() && lent == old(lent) - {buf} && idle == old(idle) + [buf]
      ensures peak == old(peak)
    {
      idle := idle + [buf];
      lent := lent - {buf};
    }
  }

  /** Inflaters; one that was lent starts from a reset decoder whatever became of the body before. */
  class InflaterPool {
    const decode: bytes -> bytes
    const isWhole: bytes -> bool
    var idle: seq<Inflater>
    ghost var lent: set<Inflater>
    /** The largest number ever lent at once. */
    ghost var peak: nat

    ghost predicate Valid()
      reads this, Decoders()
    {
      && Monotone(decode)
      && |idle| + |lent| == peak
      && (forall i, j :: 0 <= i < j < |idle| ==> idle[i].decoder != idle[j].decoder)
      && (forall i :: 0 <= i < |idle| ==> forall x :: x in lent ==> x.decoder != idle[i].decoder)
      && (forall i :: 0 <= i < |idle| ==> idle[i].Sound() && idle[i].decoder.IsReset() && idle[i].decoder.decode == decode && idle[i].decoder.isWhole == isWhole)
      && (forall x, y :: x in lent && y in lent && x != y ==> x.decoder != y.decoder)
    }

    constructor (decode: bytes -> bytes, isWhole: bytes -> bool)
      requires Monotone(decode)
      ensures Valid() && idle == [] && lent == {} && peak == 0
      ensures this.decode == decode && this.isWhole == isWhole
    {
      this.decode, this.isWhole := decode, isWhole;
      idle, lent, peak := [], {}, 0;
    }

    ghost function Decoders(): set<object>
      reads this
    {
      set i | 0 <= i < |idle| :: idle[i].decoder as object
    }

    /** The objects the idle inflaters are made of. */
    ghost function Owned(): set<object>
      reads this
    {
      Decoders() + (set i | 0 <= i < |idle| :: idle[i].window as object)
      + (set i | 0 <= i < |idle| :: idle[i].input as object)
    }

    method Lend() returns (inflater: Inflater)
      requires Valid()
      modifies this
      ensures Valid() && inflater !in old(lent) && lent == old(lent) + {inflater}
      ensures inflater.Sound() && inflater.decoder.IsReset() && inflater.decoder.decode == decode && inflater.decoder.isWhole == isWhole
      ensures inflater in old(idle) || (fresh(inflater.decoder) && fresh(inflater.window) && fresh(inflater.input))
      ensures fresh({inflater.decoder, inflater.window, inflater.input} - old(Owned())) && Owned() <= old(Owned())
      ensures inflater.decoder !in Decoders()
      ensures peak == Max(old(peak), |lent|)
    {
      if idle == [] {
        inflater := new Inflater(decode, isWhole);
        assert forall x :: x in lent ==> allocated(x.decoder);
      } else {
        inflater := idle[|idle| - 1];
        idle := idle[..|idle| - 1];
      }
      lent := lent + {inflater};
      peak := Max(peak, |lent|);
    }

    /** Takes an inflater back, its stream perhaps half decoded. */
    method Return(inflater: Inflater)
      requires Valid() && inflater in lent && inflater.Sound()
      requires inflater.decoder.decode == decode && inflater.decoder.isWhole == isWhole
      modifies this, inflater.decoder
      ensures Valid() && lent == old(lent) - {inflater} && idle == old(idle) + [inflater]
      ensures Owned() <= old(Owned()) + {inflater.decoder, inflater.window, inflater.input}
      ensures peak == old(peak)
    {
      inflater.decoder.Reset();
      ghost var before := idle;
      idle := idle + [inflater];
      assert forall i :: 0 <= i < |idle| ==> idle[i] == if i < |before| then before[i] else inflater;
      lent := lent - {inflater};
    }
  }
}
