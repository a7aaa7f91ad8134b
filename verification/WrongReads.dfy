/** Reads that are answered wrongly, and a discovery that leaves its table, each on one small file. */
module WrongReads {
  import opened Words
  import opened Geometry
  import opened Tree
  import opened WriteSpec
  import opened CrawlArithmetic
  import opened Root
  import opened ReadSpec
  import opened ReadCrawl
  import opened FileRead
  import opened OneFile
  import Discovery

  /** Two blocks long, with no table. */
  const HOLLOW: Mem := map[2 := RootBlock(1, 0, 8192, 4)]

  /** Two blocks long, in a tree of one block. */
  const LONG: Mem := map[2 := RootBlock(0, 3, 8192, 4), 3 := ZeroBlock()]

  lemma Roots()
    ensures Nbytes(Get(HOLLOW, 2), 4) == 8192 && HaHeight(Get(HOLLOW, 2), 4) == RootHeight(Get(HOLLOW, 2), 4) == 1 && RootAddr(Get(HOLLOW, 2), 4) == 0
    ensures Nbytes(Get(LONG, 2), 4) == 8192 && HaHeight(Get(LONG, 2), 4) == RootHeight(Get(LONG, 2), 4) == 0 && RootAddr(Get(LONG, 2), 4) == 3
  {
    RootBlockReads(1, 0, 8192, 4);
    RootBlockReads(0, 3, 8192, 4);
    hide RootBlock, Nbytes, HaHeight, RootHeight, RootAddr;
  }

  lemma NotRight()
    ensures !ReadRight(HOLLOW, 0, 1, 1, 4097) && !ReadRight(LONG, 3, 0, 1, 8191)
  {
    assert Cap(0) == 4096 && Cap(1) == 2097152;
    hide Cap;
  }

  /** A read in a hole that starts inside a block and runs into the next one. */
  method HoleWrong(beyond: nat -> Byte) returns (out: Response)
    ensures !(out.Bytes? && FileAnswers(HOLLOW, 2, 4, 1, 4097, out.bytes))
  {
    Roots();
    NotRight();
    hide RootBlock, Nbytes, HaHeight, RootHeight, RootAddr, ReadRight, FileAnswers, Get;
    out := FuseRead(HOLLOW, 2, 4, 1, 4097, beyond);
  }

  /** A read that starts inside a block and ends beyond the tree. */
  method TrailWrong(beyond: nat -> Byte) returns (out: Response)
    ensures !(out.Bytes? && FileAnswers(LONG, 2, 4, 1, 8191, out.bytes))
  {
    Roots();
    NotRight();
    hide RootBlock, Nbytes, HaHeight, RootHeight, RootAddr, ReadRight, FileAnswers, Get;
    out := FuseRead(LONG, 2, 4, 1, 8191, beyond);
  }

  /** A read of one byte beyond the tree. */
  method BeyondAborts(ghost beyond: nat -> Byte) returns (out: Crawl)
    ensures out.Aborts?
  {
    assert Cap(0) == 4096;
    hide ReadRight, Covers, AllTruthful, Overruns, InOrder, Answers;
    out := CrawlTree(LONG, 3, 0, 8192, 4097, 1, beyond);
  }

  /** One byte more than a tree of height 1 holds. */
  lemma DiscoverOutside()
    ensures Cap(0) > 0 && Discovery.FinalNo(2097153, Cap(0)) >= 512
  {
    assert Cap(1) == 2097152;
    Discovery.DiscoverInside(1, 2097153);
  }
}
