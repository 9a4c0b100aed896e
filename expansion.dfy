/**
  `generateAllIPs`: every seed address that passes two checks is expanded into
  the 255 addresses of its /24 range, `prefix.1` up to `prefix.255`.

  The first check is the library call `net.ParseIP(seed).To4() != nil`, whose
  code is not part of this model; it is the parameter `parses`. The second
  check counts the `.`-separated parts of the seed text, and the prefix is the
  seed's own text up to its third dot, not a re-rendering of the parsed address.
 */
module Expansion {
  import opened Text
  import SeedFile

  /** The number of addresses a seed expands into: hosts 1 to 255. */
  const HostsPerSeed := 255

  /** The two checks a seed must pass. */
  predicate Accepted(parses: iset<string>, seed: string) {
    seed in parses && |Split(seed, '.')| == 4
  }

  /** The first three dot-separated parts of a seed, joined again by dots. */
  function Prefix(seed: string): string
    requires |Split(seed, '.')| == 4
  {
    Join(Split(seed, '.')[..3], '.')
  }

  /** The address with host number `host` in the range of `prefix`. */
  function Target(prefix: string, host: nat): string {
    prefix + "." + Decimal(host)
  }

  /** The 255 addresses of one range, hosts in ascending order. */
  function Block(prefix: string): seq<string> {
    seq(HostsPerSeed, k requires 0 <= k => Target(prefix, k + 1))
  }

  /** What one seed adds to the output. */
  function Contribution(parses: iset<string>, seed: string): seq<string> {
    if Accepted(parses, seed) then Block(Prefix(seed)) else []
  }

  /** The output for a list of seeds: the contributions of the seeds, in order. */
  function Expand(parses: iset<string>, seeds: seq<string>): seq<string> {
    if |seeds| == 0 then []
    else Expand(parses, seeds[..|seeds| - 1]) + Contribution(parses, seeds[|seeds| - 1])
  }

  /** The seeds that pass both checks, in order. */
  function AcceptedSeeds(parses: iset<string>, seeds: seq<string>): (accepted: seq<string>)
    ensures forall k :: 0 <= k < |accepted| ==> Accepted(parses, accepted[k])
    ensures |accepted| <= |seeds|
  {
    if |seeds| == 0 then []
    else
      var last := seeds[|seeds| - 1];
      AcceptedSeeds(parses, seeds[..|seeds| - 1]) + (if Accepted(parses, last) then [last] else [])
  }

  /** The seeds reported as "Invalid IP format", in order. */
  function RejectedSeeds(parses: iset<string>, seeds: seq<string>): (rejected: seq<string>)
    ensures forall k :: 0 <= k < |rejected| ==> !Accepted(parses, rejected[k])
    ensures |rejected| <= |seeds|
  {
    if |seeds| == 0 then []
    else
      var last := seeds[|seeds| - 1];
      RejectedSeeds(parses, seeds[..|seeds| - 1]) + (if Accepted(parses, last) then [] else [last])
  }

  /** One more seed at the end adds its contribution at the end. */
  lemma ExpandSnoc(parses: iset<string>, init: seq<string>, last: string)
    ensures Expand(parses, init + [last]) == Expand(parses, init) + Contribution(parses, last)
  {
    var all := init + [last];
    assert all[..|all| - 1] == init;
  }

  /** One more seed at the end is kept at the end, if it is accepted. */
  lemma AcceptedSnoc(parses: iset<string>, init: seq<string>, last: string)
    ensures AcceptedSeeds(parses, init + [last])
         == AcceptedSeeds(parses, init) + (if Accepted(parses, last) then [last] else [])
  {
    var all := init + [last];
    assert all[..|all| - 1] == init;
  }

  /** One more seed at the end is reported at the end, if it is rejected. */
  lemma RejectedSnoc(parses: iset<string>, init: seq<string>, last: string)
    ensures RejectedSeeds(parses, init + [last])
         == RejectedSeeds(parses, init) + (if Accepted(parses, last) then [] else [last])
  {
    var all := init + [last];
    assert all[..|all| - 1] == init;
  }

  /** Processing seed number `n` extends both outputs by what that seed adds. */
  lemma SeedStep(parses: iset<string>, seeds: seq<string>, n: nat)
    requires n < |seeds|
    ensures Expand(parses, seeds[..n + 1]) == Expand(parses, seeds[..n]) + Contribution(parses, seeds[n])
    ensures RejectedSeeds(parses, seeds[..n + 1])
         == RejectedSeeds(parses, seeds[..n]) + (if Accepted(parses, seeds[n]) then [] else [seeds[n]])
  {
    assert seeds[..n + 1] == seeds[..n] + [seeds[n]];
    ExpandSnoc(parses, seeds[..n], seeds[n]);
    RejectedSnoc(parses, seeds[..n], seeds[n]);
  }

  /** The first `i` addresses of a block are the first `i - 1` and host `i`. */
  lemma BlockTake(prefix: string, i: nat)
    requires 1 <= i <= HostsPerSeed
    ensures Block(prefix)[..i] == Block(prefix)[..i - 1] + [Target(prefix, i)]
  {
  }

  /** The loop of `generateAllIPs`. Besides the addresses it returns the seeds
      it reports as invalid, in the order it reports them. */
  method GenerateAllIPs(parses: iset<string>, seeds: seq<string>) returns (ips: seq<string>, rejected: seq<string>)
    ensures ips == Expand(parses, seeds)
    ensures rejected == RejectedSeeds(parses, seeds)
  {
    ips, rejected := [], [];
    for n := 0 to |seeds|
      invariant ips == Expand(parses, seeds[..n])
      invariant rejected == RejectedSeeds(parses, seeds[..n])
    {
      var seed := seeds[n];
      if seed !in parses {
        SeedStep(parses, seeds, n);
        rejected := rejected + [seed];
        continue;
      }
      var parts := Split(seed, '.');
      if |parts| != 4 {
        SeedStep(parses, seeds, n);
        rejected := rejected + [seed];
        continue;
      }
      var prefix := Join(parts[..3], '.');
      ghost var before := ips;
      var i := 1;
      while i < 256
        invariant 1 <= i <= 256
        invariant ips == before + Block(prefix)[..i - 1]
      {
        BlockTake(prefix, i);
        ips := ips + [prefix + "." + Decimal(i)];
        i := i + 1;
      }
      assert Block(prefix)[..255] == Block(prefix);
      SeedStep(parses, seeds, n);
    }
    assert seeds[..|seeds|] == seeds;
  }

  // ---------------------------------------------------------------------------
  // Properties of the expansion
  // ---------------------------------------------------------------------------

  /** The output for two lists one after the other is the two outputs one after
      the other: seeds are processed independently and in order. */
  lemma {:induction false} ExpandAppend(parses: iset<string>, first: seq<string>, second: seq<string>)
    ensures Expand(parses, first + second) == Expand(parses, first) + Expand(parses, second)
  {
    if |second| != 0 {
      var init, last := second[..|second| - 1], second[|second| - 1];
      var tail := Contribution(parses, last);
      assert Expand(parses, first + second) == Expand(parses, first + init) + tail by {
        assert first + second == (first + init) + [last];
        ExpandSnoc(parses, first + init, last);
      }
      assert Expand(parses, second) == Expand(parses, init) + tail by {
        assert init + [last] == second;
        ExpandSnoc(parses, init, last);
      }
      assert Expand(parses, first + init) == Expand(parses, first) + Expand(parses, init) by {
        ExpandAppend(parses, first, init);
      }
    } else {
      assert first + second == first;
    }
  }

  /** Every seed is either kept or reported, and none is lost or duplicated:
      the kept and the reported seeds together are the input seeds. */
  lemma {:induction false} SeedsPartition(parses: iset<string>, seeds: seq<string>)
    ensures multiset(AcceptedSeeds(parses, seeds)) + multiset(RejectedSeeds(parses, seeds)) == multiset(seeds)
  {
    if |seeds| != 0 {
      var init, last := seeds[..|seeds| - 1], seeds[|seeds| - 1];
      SeedsPartition(parses, init);
      assert seeds == init + [last];
    }
  }

  /** A single seed is kept exactly when it passes both checks, and reported
      otherwise. */
  lemma SingleSeed(parses: iset<string>, seed: string)
    ensures AcceptedSeeds(parses, [seed]) == (if Accepted(parses, seed) then [seed] else [])
    ensures RejectedSeeds(parses, [seed]) == (if Accepted(parses, seed) then [] else [seed])
  {
    assert [seed][..0] == [];
  }

  /** The seeds kept from two lists in a row are those kept from each, in
      order; with `SingleSeed` this fixes the kept seeds in input order. */
  lemma {:induction false} AcceptedSeedsAppend(parses: iset<string>, first: seq<string>, second: seq<string>)
    ensures AcceptedSeeds(parses, first + second) == AcceptedSeeds(parses, first) + AcceptedSeeds(parses, second)
  {
    if |second| != 0 {
      var init, last := second[..|second| - 1], second[|second| - 1];
      var tail := if Accepted(parses, last) then [last] else [];
      assert AcceptedSeeds(parses, first + second) == AcceptedSeeds(parses, first + init) + tail by {
        assert first + second == (first + init) + [last];
        AcceptedSnoc(parses, first + init, last);
      }
      assert AcceptedSeeds(parses, second) == AcceptedSeeds(parses, init) + tail by {
        assert init + [last] == second;
        AcceptedSnoc(parses, init, last);
      }
      assert AcceptedSeeds(parses, first + init) == AcceptedSeeds(parses, first) + AcceptedSeeds(parses, init) by {
        AcceptedSeedsAppend(parses, first, init);
      }
    } else {
      assert first + second == first;
    }
  }

  /** The seeds reported for two lists in a row are those reported for each,
      in order. */
  lemma {:induction false} RejectedSeedsAppend(parses: iset<string>, first: seq<string>, second: seq<string>)
    ensures RejectedSeeds(parses, first + second) == RejectedSeeds(parses, first) + RejectedSeeds(parses, second)
  {
    if |second| != 0 {
      var init, last := second[..|second| - 1], second[|second| - 1];
      var tail := if Accepted(parses, last) then [] else [last];
      assert RejectedSeeds(parses, first + second) == RejectedSeeds(parses, first + init) + tail by {
        assert first + second == (first + init) + [last];
        RejectedSnoc(parses, first + init, last);
      }
      assert RejectedSeeds(parses, second) == RejectedSeeds(parses, init) + tail by {
        assert init + [last] == second;
        RejectedSnoc(parses, init, last);
      }
      assert RejectedSeeds(parses, first + init) == RejectedSeeds(parses, first) + RejectedSeeds(parses, init) by {
        RejectedSeedsAppend(parses, first, init);
      }
    } else {
      assert first + second == first;
    }
  }

  /** A rejected seed adds nothing, and the seeds after it are still processed. */
  lemma RejectedSeedSkipped(parses: iset<string>, before: seq<string>, seed: string, after: seq<string>)
    requires !Accepted(parses, seed)
    ensures Expand(parses, before + [seed] + after) == Expand(parses, before) + Expand(parses, after)
  {
    assert Expand(parses, [seed]) == [] by {
      ExpandSnoc(parses, [], seed);
      assert [] + [seed] == [seed];
    }
    calc {
      Expand(parses, before + [seed] + after);
      { ExpandAppend(parses, before + [seed], after); }
      Expand(parses, before + [seed]) + Expand(parses, after);
      { ExpandAppend(parses, before, [seed]); }
      Expand(parses, before) + Expand(parses, [seed]) + Expand(parses, after);
    }
  }

  /** Each accepted seed yields exactly 255 addresses. */
  lemma {:induction false} ExpandLength(parses: iset<string>, seeds: seq<string>)
    ensures |Expand(parses, seeds)| == HostsPerSeed * |AcceptedSeeds(parses, seeds)|
  {
    if |seeds| != 0 {
      ExpandLength(parses, seeds[..|seeds| - 1]);
    }
  }

  /** The output is empty exactly when no seed is accepted. */
  lemma ExpandEmptyIff(parses: iset<string>, seeds: seq<string>)
    ensures Expand(parses, seeds) == [] <==> AcceptedSeeds(parses, seeds) == []
  {
    ExpandLength(parses, seeds);
  }

  /** Address number `HostsPerSeed * q + h` of the output is host `h + 1` of the
      range of the `q`-th accepted seed: the output is the blocks of the
      accepted seeds in input order, each counting up from host 1 to host 255. */
  lemma {:induction false} ExpandAt(parses: iset<string>, seeds: seq<string>, q: nat, h: nat)
    requires q < |AcceptedSeeds(parses, seeds)| && h < HostsPerSeed
    ensures |Expand(parses, seeds)| == HostsPerSeed * |AcceptedSeeds(parses, seeds)|
    ensures Expand(parses, seeds)[HostsPerSeed * q + h]
         == Target(Prefix(AcceptedSeeds(parses, seeds)[q]), h + 1)
  {
    var init, last := seeds[..|seeds| - 1], seeds[|seeds| - 1];
    assert seeds == init + [last];
    ExpandSnoc(parses, init, last);
    AcceptedSnoc(parses, init, last);
    ExpandLength(parses, seeds);
    ExpandLength(parses, init);
    var before := AcceptedSeeds(parses, init);
    if q < |before| {
      ExpandAt(parses, init, q, h);
      assert AcceptedSeeds(parses, seeds)[q] == before[q];
    } else {
      assert Accepted(parses, last) && q == |before|;
      assert AcceptedSeeds(parses, seeds)[q] == last;
      assert Expand(parses, seeds)[HostsPerSeed * q + h] == Block(Prefix(last))[h];
    }
  }

  /** The prefix is the seed's own text before its third (and last) dot. */
  lemma PrefixIsSeedText(seed: string)
    requires |Split(seed, '.')| == 4
    ensures seed == Prefix(seed) + "." + Split(seed, '.')[3]
    ensures '.' !in Split(seed, '.')[3]
  {
    var parts := Split(seed, '.');
    SplitPiecesLackSeparator(seed, '.');
    JoinSplit(seed, '.');
    assert parts == parts[..3] + [parts[3]];
    JoinSnoc(parts[..3], parts[3], '.');
  }

  /** A generated address itself has four dot-separated parts: the first three
      of its seed and the decimal host number. */
  lemma TargetParts(seed: string, host: nat)
    requires |Split(seed, '.')| == 4
    ensures Split(Target(Prefix(seed), host), '.') == Split(seed, '.')[..3] + [Decimal(host)]
  {
    var parts := Split(seed, '.')[..3];
    SplitPiecesLackSeparator(seed, '.');
    SplitJoin(parts, '.');
    DecimalHasNoDot(host);
    SplitWithoutSeparator(Decimal(host), '.');
    SplitAround(Prefix(seed), '.', Decimal(host));
  }

  /** Every generated address reads back as `prefix.h` with `1 <= h <= 255`,
      where `prefix` is the first three parts of its seed and `h` counts up
      within each block: host 0 and host 256 are never produced. */
  lemma HostNumbers(parses: iset<string>, seeds: seq<string>, k: nat)
    requires k < |Expand(parses, seeds)|
    ensures k / HostsPerSeed < |AcceptedSeeds(parses, seeds)|
    ensures var parts := Split(Expand(parses, seeds)[k], '.');
      |parts| == 4
      && parts[..3] == Split(AcceptedSeeds(parses, seeds)[k / HostsPerSeed], '.')[..3]
      && AllDigits(parts[3])
      && DecimalValue(parts[3]) == k % HostsPerSeed + 1
      && 1 <= DecimalValue(parts[3]) <= 255
  {
    ExpandLength(parses, seeds);
    var q, h := k / HostsPerSeed, k % HostsPerSeed;
    ExpandAt(parses, seeds, q, h);
    var seed := AcceptedSeeds(parses, seeds)[q];
    TargetParts(seed, h + 1);
    DecimalValueOfDecimal(h + 1);
  }

  /** Overlapping seeds are not merged: two accepted seeds with the same prefix
      give the same 255 addresses twice. */
  lemma OverlappingSeedsRepeat(parses: iset<string>, s1: string, s2: string)
    requires Accepted(parses, s1) && Accepted(parses, s2) && Prefix(s1) == Prefix(s2)
    ensures |Expand(parses, [s1, s2])| == 2 * HostsPerSeed
    ensures forall k :: 0 <= k < HostsPerSeed ==>
      Expand(parses, [s1, s2])[k] == Expand(parses, [s1, s2])[k + HostsPerSeed]
  {
    var block := Block(Prefix(s1));
    assert [s1, s2][..1] == [s1];
    assert [s1][..0] == [];
    assert Expand(parses, [s1]) == block;
    assert Expand(parses, [s1, s2]) == block + block;
  }

  /** Lines of a blank seed file expand to nothing: the single empty line fails
      the part count whatever the address parser says. */
  lemma EmptyLineRejected(parses: iset<string>)
    ensures !Accepted(parses, "")
    ensures Expand(parses, [""]) == []
  {
    assert |Split("", '.')| == 1;
    assert [""][..0] == [];
  }

  /** A seed file that is empty or only white space yields no address: its one
      line is empty and is rejected. */
  lemma BlankSeedFileExpandsToNothing(parses: iset<string>, content: string)
    requires AllSpace(content)
    ensures Expand(parses, SeedFile.Lines(content)) == []
    ensures RejectedSeeds(parses, SeedFile.Lines(content)) == [""]
  {
    SeedFile.BlankContentIsOneEmptyLine(content);
    EmptyLineRejected(parses);
    assert [""][..0] == [];
  }

  /** The part count is the only textual check, so any seed of the shape
      `head.b.c.d` that the address parser accepts is expanded on its own text,
      whatever `head` is. An IPv4-mapped IPv6 seed such as `::ffff:10.0.0.5`
      (head `::ffff:10`) thus yields `::ffff:10.0.0.1` to `::ffff:10.0.0.255`. */
  lemma FourPartSeedKeepsItsText(parses: iset<string>, head: string, b: string, c: string, d: string)
    requires '.' !in head && '.' !in b && '.' !in c && '.' !in d
    requires head + "." + b + "." + c + "." + d in parses
    ensures Accepted(parses, head + "." + b + "." + c + "." + d)
    ensures Prefix(head + "." + b + "." + c + "." + d) == head + "." + b + "." + c
    ensures Expand(parses, [head + "." + b + "." + c + "." + d]) == Block(head + "." + b + "." + c)
  {
    var seed := head + "." + b + "." + c + "." + d;
    var parts := [head, b, c, d];
    assert Join(parts, '.') == seed by {
      assert Join(parts[3..], '.') == d;
      assert Join(parts[2..], '.') == c + "." + d;
      assert Join(parts[1..], '.') == b + "." + c + "." + d;
    }
    SplitJoin(parts, '.');
    assert Join(parts[..3], '.') == head + "." + b + "." + c by {
      var three := parts[..3];
      assert three == [head, b, c] && three[1..] == [b, c] && three[1..][1..] == [c];
      assert Join(three[1..], '.') == b + "." + c;
    }
    assert [seed][..0] == [];
  }
}
