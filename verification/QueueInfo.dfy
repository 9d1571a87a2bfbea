/** queue_info_t and the work of the persistent worker on one queue (src/lib/persistent_worker.c), run by one thread. */
module QueueInfo {
  import opened Frames
  import opened QueueLog

  class Info {
    var unpersistent: seq<Frame>
    var indexHead: int
    var indexSent: int
    var indexPersistent: int
    // the data file and the file of the sent index
    var context: string
    var durableSent: int

    /** The cursor invariant between calls. */
    ghost predicate Valid()
      reads this
    {
      && indexHead == indexPersistent + SumFrameSizes(unpersistent)
      && forall f :: f in unpersistent ==> f.size > 0
    }

    constructor ()
      ensures Valid() && unpersistent == [] && context == "" && durableSent == indexSent == indexHead == 0
    {
      unpersistent, context := [], "";
      indexHead, indexSent, indexPersistent, durableSent := 0, 0, 0, 0;
    }

    method PersistFrame(f: Frame)
      requires Valid() && f.size > 0
      modifies this`unpersistent, this`indexHead
      ensures Valid() && unpersistent == old(unpersistent) + [f] && indexHead == old(indexHead) + f.size
    {
      SumSnoc(unpersistent, f);
      unpersistent := unpersistent + [f];
      indexHead := indexHead + f.size;
    }

    method UpdateIndexSent(f: Frame)
      modifies this`indexSent
      ensures indexSent == old(indexSent) + f.size
    {
      indexSent := indexSent + f.size;
    }

    method PersistQueueInfo()
      modifies this`durableSent
      ensures durableSent == indexSent
    {
      durableSent := indexSent;
    }

    method WriteHeaders(attrs: seq<string>)
      modifies this`context
      ensures context == old(context) + Lines(attrs)
    {
      for i := 0 to |attrs|
        invariant context == old(context) + Lines(attrs[..i])
      {
        LinesSnoc(attrs[..i], attrs[i]);
        assert attrs[..i + 1] == attrs[..i] + [attrs[i]];
        context := context + attrs[i];
        context := context + "\n";
      }
      assert attrs[..|attrs|] == attrs;
    }

    method WriteBody(data: seq<string>)
      modifies this`context
      ensures context == old(context) + Flatten(data)
    {
      for i := 0 to |data|
        invariant context == old(context) + Flatten(data[..i])
      {
        FlattenAppend(data[..i], [data[i]]);
        assert Flatten([data[i]]) == data[i];
        assert data[..i + 1] == data[..i] + [data[i]];
        context := context + data[i];
      }
      assert data[..|data|] == data;
    }

    method WriteFrame(f: Frame)
      modifies this`context
      ensures context == old(context) + WriteOut(f)
    {
      hide Lines, Flatten;
      context := context + f.name;
      context := context + "\n";
      WriteHeaders(f.attrs);
      context := context + "\n";
      WriteBody(f.data);
      context := context + "\0";
      assert context == old(context) + WriteOut(f);
    }

    method PersistQueueContext()
      modifies this`context, this`indexPersistent, this`unpersistent
      ensures unpersistent == []
      ensures context == old(context) + WriteAll(old(unpersistent))
      ensures indexPersistent == old(indexPersistent) + SumFrameSizes(old(unpersistent))
    {
      hide WriteOut;
      while unpersistent != []
        invariant context + WriteAll(unpersistent) == old(context) + WriteAll(old(unpersistent))
        invariant indexPersistent + SumFrameSizes(unpersistent) == old(indexPersistent) + SumFrameSizes(old(unpersistent))
        decreases |unpersistent|
      {
        var f := unpersistent[0];
        unpersistent := unpersistent[1..];
        WriteFrame(f);
        indexPersistent := indexPersistent + f.size;
      }
    }

    /**
     One pass of the persistent worker over the queue. The guard on the cursors skips nothing:
     afterwards every frame is in the data file.
     */
    method PersistentPass()
      requires Valid()
      modifies this`durableSent, this`context, this`indexPersistent, this`unpersistent
      ensures Valid() && unpersistent == [] && indexPersistent == indexHead
      ensures context == old(context) + WriteAll(old(unpersistent))
      ensures durableSent == indexSent
    {
      PersistQueueInfo();
      if indexHead > indexPersistent {
        PersistQueueContext();
      }
    }
  }

  lemma {:induction false} SumSnoc(fs: seq<Frame>, f: Frame)
    ensures SumFrameSizes(fs + [f]) == SumFrameSizes(fs) + f.size
  {
    if fs == [] {
      assert [f][1..] == [];
    } else {
      assert (fs + [f])[1..] == fs[1..] + [f];
      SumSnoc(fs[1..], f);
    }
  }
}
