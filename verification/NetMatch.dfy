/** What the matching of devices to cards achieves (src/installer/networking.c:184-261), for one
    call of probecard and for any sequence of calls. */
module NetMatch {

  import opened Wrappers
  import opened NetTable

  // ---- growth ----

  lemma GrowsTransitive(a: seq<Card>, b: seq<Card>, c: seq<Card>)
    requires Grows(a, b) && Grows(b, c)
    ensures Grows(a, c)
  {
    forall k | 0 <= k < |a|
      ensures c[k] == a[k].(device := c[k].device, address := c[k].address)
    {
      assert b[k] == a[k].(device := b[k].device, address := b[k].address);
    }
  }

  lemma MatchOneGrows(cards: seq<Card>, name: string, info: Info)
    ensures Grows(cards, MatchOne(cards, name, info))
  {
  }

  lemma {:induction false} MatchAllGrows(cards: seq<Card>, found: seq<string>, sys: Sysfs)
    ensures Grows(cards, MatchAll(cards, found, sys))
    decreases |found|
  {
    if found != [] {
      var cards' := MatchOne(cards, found[0], sys(found[0]));
      MatchOneGrows(cards, found[0], sys(found[0]));
      MatchAllGrows(cards', found[1..], sys);
      GrowsTransitive(cards, cards', MatchAll(cards, found, sys));
    }
  }

  lemma {:induction false} FillByDriverGrows(cards: seq<Card>, i: nat, driver: string, found: seq<string>, sys: Sysfs)
    requires i <= |cards|
    ensures Grows(cards, FillByDriver(cards, i, driver, found, sys).0)
    decreases |cards| - i
  {
    if i < |cards| && found != [] {
      if Takes(cards[i], ByDriver(driver)) {
        var cards' := cards[i := Fill(cards[i], found[0], sys(found[0]))];
        FillByDriverGrows(cards', i + 1, driver, found[1..], sys);
        GrowsTransitive(cards, cards', FillByDriver(cards, i, driver, found, sys).0);
      } else {
        FillByDriverGrows(cards, i + 1, driver, found, sys);
      }
    }
  }

  lemma {:induction false} AppendAllExtends(
    cards: seq<Card>, driver: string, options: string, description: string, found: seq<string>, sys: Sysfs)
    ensures cards <= AppendAll(cards, driver, options, description, found, sys)
    ensures forall i :: 0 <= i < |found| ==>
              AppendAll(cards, driver, options, description, found, sys)[|cards| + i]
              == NewCard(driver, options, description, found[i], sys(found[i]))
    decreases |found|
  {
    if found != [] {
      AppendAllExtends(cards + [NewCard(driver, options, description, found[0], sys(found[0]))],
                       driver, options, description, found[1..], sys);
    }
  }

  /** Filled slots are never overwritten, and no call changes the colour or identity of a card. */
  lemma ProbeGrows(cards: seq<Card>, c: Call)
    ensures Grows(cards, Probe(cards, c))
  {
    var found := Scan(cards, c.names);
    if c.driver.None? {
      MatchAllGrows(cards, found, c.sys);
    } else if c.loads {
      FillByDriverGrows(cards, 0, c.driver.value, found, c.sys);
      var (filled, rest) := FillByDriver(cards, 0, c.driver.value, found, c.sys);
      if c.description.Some? {
        AppendAllExtends(filled, c.driver.value, c.options, c.description.value, rest, c.sys);
      }
    }
  }

  // ---- matching without a module ----

  /** Some empty slot would accept a device that sysfs describes so. */
  ghost predicate CouldServe(cards: seq<Card>, info: Info) {
    exists k :: 0 <= k < |cards|
      && (Takes(cards[k], ByIds(info.vendorid, info.modelid)) || (info.driver != "" && Takes(cards[k], ByDriver(info.driver))))
  }

  lemma GrowthOnlyCloses(cards: seq<Card>, cards': seq<Card>, info: Info)
    requires Grows(cards, cards') && |cards| == |cards'| && CouldServe(cards', info)
    ensures CouldServe(cards, info)
  {
    var k :| 0 <= k < |cards'|
      && (Takes(cards'[k], ByIds(info.vendorid, info.modelid)) || (info.driver != "" && Takes(cards'[k], ByDriver(info.driver))));
    assert cards'[k] == cards[k].(device := cards'[k].device, address := cards'[k].address);
    assert Takes(cards[k], ByIds(info.vendorid, info.modelid)) || (info.driver != "" && Takes(cards[k], ByDriver(info.driver)));
  }

  lemma GrowthKeepsListed(cards: seq<Card>, cards': seq<Card>, name: string)
    requires Grows(cards, cards') && Listed(cards, name)
    ensures Listed(cards', name)
  {
    var i :| 0 <= i < |cards| && cards[i].device != "" && cards[i].device == name;
    assert cards'[i] == cards[i];
  }

  lemma MatchOneIsMaximal(cards: seq<Card>, name: string, info: Info)
    requires name != ""
    ensures Listed(MatchOne(cards, name, info), name) || !CouldServe(MatchOne(cards, name, info), info)
  {
    var cards' := MatchOne(cards, name, info);
    var byIds := Slot(cards, ByIds(info.vendorid, info.modelid), 0);
    var byDriver := Slot(cards, ByDriver(info.driver), 0);
    if byIds < |cards| {
      assert cards'[byIds].device == name;
    } else if info.driver != "" && byDriver < |cards| {
      assert cards'[byDriver].device == name;
    }
  }

  /** The matching is maximal: a device left over could not take any slot that is still empty. */
  lemma {:induction false} MatchAllIsMaximal(cards: seq<Card>, found: seq<string>, sys: Sysfs, name: string)
    requires name in found && name != ""
    ensures Listed(MatchAll(cards, found, sys), name) || !CouldServe(MatchAll(cards, found, sys), sys(name))
    decreases |found|
  {
    var cards' := MatchOne(cards, found[0], sys(found[0]));
    var final := MatchAll(cards', found[1..], sys);
    if name in found[1..] {
      MatchAllIsMaximal(cards', found[1..], sys, name);
    } else {
      MatchOneIsMaximal(cards, name, sys(name));
      MatchAllGrows(cards', found[1..], sys);
      if Listed(cards', name) {
        GrowthKeepsListed(cards', final, name);
      } else if CouldServe(final, sys(name)) {
        GrowthOnlyCloses(cards', final, sys(name));
      }
    }
  }

  /** After a call without a module, no device in the directory that is shown and not listed could
      still take an empty slot. */
  lemma ProbeIsMaximal(cards: seq<Card>, c: Call, name: string)
    requires c.driver.None? && Distinct(c.names) && name in c.names && name != "" && !Hidden(name)
    ensures Listed(Probe(cards, c), name) || !CouldServe(Probe(cards, c), c.sys(name))
  {
    ScanIsFree(cards, c.names);
    if Listed(cards, name) {
      ProbeGrows(cards, c);
      GrowthKeepsListed(cards, Probe(cards, c), name);
    } else {
      MatchAllIsMaximal(cards, Scan(cards, c.names), c.sys, name);
    }
  }

  /** Slot k of the new table was rightly given to its device: by its ids, or by its driver when no
      empty slot answers to the ids. */
  ghost predicate Justified(old_: Card, cards': seq<Card>, k: nat, found: seq<string>, sys: Sysfs)
    requires k < |cards'|
  {
    var info := sys(cards'[k].device);
    && cards'[k].device in found
    && cards'[k].address == info.mac
    && (|| Takes(old_, ByIds(info.vendorid, info.modelid))
        || (&& info.driver != "" && Takes(old_, ByDriver(info.driver))
            && forall i :: 0 <= i < |cards'| ==> !Takes(cards'[i], ByIds(info.vendorid, info.modelid))))
  }

  lemma {:induction false} MatchAllIsJustified(cards: seq<Card>, found: seq<string>, sys: Sysfs, k: nat)
    requires k < |cards| && cards[k].device == "" && MatchAll(cards, found, sys)[k].device != ""
    ensures Justified(cards[k], MatchAll(cards, found, sys), k, found, sys)
    decreases |found|
  {
    if found != [] {
      var info := sys(found[0]);
      var cards' := MatchOne(cards, found[0], info);
      var final := MatchAll(cards', found[1..], sys);
      MatchAllGrows(cards', found[1..], sys);
      if cards'[k].device != "" {
        if !Takes(cards[k], ByIds(info.vendorid, info.modelid)) {
          forall i | 0 <= i < |final|
            ensures !Takes(final[i], ByIds(info.vendorid, info.modelid))
          {
            assert final[i] == cards'[i].(device := final[i].device, address := final[i].address);
            assert !Takes(cards[i], ByIds(info.vendorid, info.modelid));
          }
        }
      } else {
        MatchAllIsJustified(cards', found[1..], sys, k);
        MatchOneGrows(cards, found[0], info);
      }
    }
  }

  /** Every slot filled by a call without a module was rightly filled. */
  lemma ProbeIsJustified(cards: seq<Card>, c: Call, k: nat)
    requires c.driver.None? && k < |cards| && cards[k].device == "" && Probe(cards, c)[k].device != ""
    ensures Justified(cards[k], Probe(cards, c), k, Scan(cards, c.names), c.sys)
  {
    MatchAllIsJustified(cards, Scan(cards, c.names), c.sys, k);
  }

  // ---- a module has been loaded ----

  lemma {:induction false} FillByDriverServes(cards: seq<Card>, i: nat, driver: string, found: seq<string>, sys: Sysfs)
    requires i <= |cards| && "" !in found
    ensures var (filled, rest) := FillByDriver(cards, i, driver, found, sys);
            && (forall n :: n in found ==> n in rest || Listed(filled, n))
            && (rest != [] ==> forall k :: i <= k < |filled| ==> !Takes(filled[k], ByDriver(driver)))
            && filled[..i] == cards[..i]
    decreases |cards| - i
  {
    if i < |cards| && found != [] {
      if Takes(cards[i], ByDriver(driver)) {
        var cards' := cards[i := Fill(cards[i], found[0], sys(found[0]))];
        assert cards'[i].device == found[0] != "";
        FillByDriverServes(cards', i + 1, driver, found[1..], sys);
        FillByDriverGrows(cards', i + 1, driver, found[1..], sys);
        GrowthKeepsListed(cards', FillByDriver(cards', i + 1, driver, found[1..], sys).0, found[0]);
        PrefixOfPrefix(FillByDriver(cards', i + 1, driver, found[1..], sys).0, cards', cards, i);
      } else {
        FillByDriverServes(cards, i + 1, driver, found, sys);
        PrefixOfPrefix(FillByDriver(cards, i + 1, driver, found, sys).0, cards, cards, i);
      }
    }
  }

  lemma PrefixOfPrefix(a: seq<Card>, b: seq<Card>, c: seq<Card>, i: nat)
    requires i < |a| && i < |b| && i < |c| && a[..i + 1] == b[..i + 1] && b[..i] == c[..i]
    ensures a[..i] == c[..i] && a[i] == b[i]
  {
    assert a[..i] == a[..i + 1][..i] && b[..i] == b[..i + 1][..i];
    assert a[i] == a[..i + 1][i] && b[i] == b[..i + 1][i];
  }

  /** A slot filled after loading a module belongs to hardware of that module. */
  lemma {:induction false} FillByDriverIsJustified(
    cards: seq<Card>, i: nat, driver: string, found: seq<string>, sys: Sysfs, k: nat)
    requires i <= |cards| && k < |cards| && FillByDriver(cards, i, driver, found, sys).0[k] != cards[k]
    ensures Takes(cards[k], ByDriver(driver))
    ensures exists n :: n in found && FillByDriver(cards, i, driver, found, sys).0[k] == Fill(cards[k], n, sys(n))
    decreases |cards| - i
  {
    if Takes(cards[i], ByDriver(driver)) {
      var cards' := cards[i := Fill(cards[i], found[0], sys(found[0]))];
      if FillByDriver(cards', i + 1, driver, found[1..], sys).0[k] != cards'[k] {
        FillByDriverIsJustified(cards', i + 1, driver, found[1..], sys, k);
      }
    } else {
      FillByDriverIsJustified(cards, i + 1, driver, found, sys, k);
    }
  }

  /** A loaded module serves every new device when cards may be appended, and otherwise leaves a
      device over only if no empty slot of that module is left. */
  lemma LoadedModuleServes(cards: seq<Card>, c: Call, name: string)
    requires c.driver.Some? && c.loads && Distinct(c.names) && "" !in c.names
    requires name in c.names && !Hidden(name)
    ensures || Listed(Probe(cards, c), name)
            || (c.description.None? && forall k :: 0 <= k < |cards| ==> !Takes(Probe(cards, c)[k], ByDriver(c.driver.value)))
  {
    var found := Scan(cards, c.names);
    ScanIsFree(cards, c.names);
    ProbeGrows(cards, c);
    if Listed(cards, name) {
      GrowthKeepsListed(cards, Probe(cards, c), name);
    } else {
      FillByDriverServes(cards, 0, c.driver.value, found, c.sys);
      var (filled, rest) := FillByDriver(cards, 0, c.driver.value, found, c.sys);
      if c.description.Some? {
        AppendAllExtends(filled, c.driver.value, c.options, c.description.value, rest, c.sys);
        var final := Probe(cards, c);
        if Listed(filled, name) {
          GrowthKeepsListed(filled, final, name);
        } else {
          var i :| 0 <= i < |rest| && rest[i] == name;
          assert final[|filled| + i].device == name;
        }
      }
    }
  }

  // ---- any sequence of calls ----

  function Run(cards: seq<Card>, calls: seq<Call>): seq<Card>
    decreases |calls|
  {
    if calls == [] then cards else Run(Probe(cards, calls[0]), calls[1..])
  }

  lemma {:induction false} RunGrows(cards: seq<Card>, calls: seq<Call>)
    ensures Grows(cards, Run(cards, calls))
    decreases |calls|
  {
    if calls != [] {
      ProbeGrows(cards, calls[0]);
      RunGrows(Probe(cards, calls[0]), calls[1..]);
      GrowsTransitive(cards, Probe(cards, calls[0]), Run(cards, calls));
    }
  }

  /** Device names stay pairwise distinct and hidden devices stay unassigned, whatever is probed. */
  lemma {:induction false} RunKeepsSound(cards: seq<Card>, calls: seq<Call>)
    requires Sound(cards) && forall i :: 0 <= i < |calls| ==> Distinct(calls[i].names)
    ensures Sound(Run(cards, calls)) && Grows(cards, Run(cards, calls))
    decreases |calls|
  {
    if calls != [] {
      var cards' := Probe(cards, calls[0]);
      ProbeKeeps(cards, calls[0]);
      ProbeGrows(cards, calls[0]);
      RunKeepsSound(cards', calls[1..]);
      GrowsTransitive(cards, cards', Run(cards', calls[1..]));
    }
  }
}
