/**
 Permission bitmasks (cogs/meta.py): resolving a channel overwrite against
 a base mask, and splitting a resolved permission set into the "Allowed"
 and "Denied" name lists the `permissions` commands show.

 A mask is a non-negative Python integer; `Bit(n, i)` is its bit `i`.
 */
module Permissions {
  import opened Strings
  import opened Lists

  /** Bit `i` of `n`, that is `(n >> i) & 1 == 1`. */
  function Bit(n: nat, i: nat): bool
    decreases i
  {
    if i == 0 then n % 2 == 1 else Bit(n / 2, i - 1)
  }

  /** `a & ~b` on non-negative integers, one bit at a time from the bottom. */
  function AndNot(a: nat, b: nat): nat
    decreases a
  {
    if a == 0 then 0
    else 2 * AndNot(a / 2, b / 2) + (if a % 2 == 1 && b % 2 == 0 then 1 else 0)
  }

  /** `a | b` on non-negative integers, one bit at a time from the bottom. */
  function Or(a: nat, b: nat): nat
    decreases a + b
  {
    if a == 0 && b == 0 then 0
    else 2 * Or(a / 2, b / 2) + (if a % 2 == 1 || b % 2 == 1 then 1 else 0)
  }

  lemma {:induction false} ZeroHasNoBits(i: nat)
    ensures !Bit(0, i)
  {
    if i > 0 {
      ZeroHasNoBits(i - 1);
    }
  }

  /** Bit `i` of `2 * h + low` is `low` at the bottom and bit `i - 1` of `h`
      above it. */
  lemma ShiftedBit(h: nat, low: nat, i: nat)
    requires low < 2
    ensures Bit(2 * h + low, i) == if i == 0 then low == 1 else Bit(h, i - 1)
  {
  }

  lemma {:induction false} AndNotBits(a: nat, b: nat, i: nat)
    ensures Bit(AndNot(a, b), i) == (Bit(a, i) && !Bit(b, i))
    decreases a
  {
    if a == 0 {
      ZeroHasNoBits(i);
    } else {
      var low := if a % 2 == 1 && b % 2 == 0 then 1 else 0;
      ShiftedBit(AndNot(a / 2, b / 2), low, i);
      if i > 0 {
        AndNotBits(a / 2, b / 2, i - 1);
      }
    }
  }

  lemma {:induction false} OrBits(a: nat, b: nat, i: nat)
    ensures Bit(Or(a, b), i) == (Bit(a, i) || Bit(b, i))
    decreases a + b
  {
    if a == 0 && b == 0 {
      ZeroHasNoBits(i);
    } else {
      var low := if a % 2 == 1 || b % 2 == 1 then 1 else 0;
      ShiftedBit(Or(a / 2, b / 2), low, i);
      if i > 0 {
        OrBits(a / 2, b / 2, i - 1);
      }
    }
  }

  /** Two masks with the same bits are the same number. */
  lemma {:induction false} BitsDetermineMask(a: nat, b: nat)
    requires forall i: nat :: Bit(a, i) == Bit(b, i)
    ensures a == b
    decreases a + b
  {
    if a != 0 || b != 0 {
      assert Bit(a, 0) == Bit(b, 0);
      forall i: nat
        ensures Bit(a / 2, i) == Bit(b / 2, i)
      {
        assert Bit(a, i + 1) == Bit(b, i + 1);
      }
      BitsDetermineMask(a / 2, b / 2);
    }
  }

  /** The effective mask of a channel: `(base & ~deny) | allow`. */
  function Resolve(base: nat, allow: nat, deny: nat): (r: nat)
    ensures forall i: nat :: Bit(r, i) == (Bit(allow, i) || (Bit(base, i) && !Bit(deny, i)))
  {
    var r := Or(AndNot(base, deny), allow);
    forall i: nat
      ensures Bit(r, i) == (Bit(allow, i) || (Bit(base, i) && !Bit(deny, i)))
    {
      OrBits(AndNot(base, deny), allow, i);
      AndNotBits(base, deny, i);
    }
    r
  }

  /** An allowed bit is always set; a denied bit that is not allowed is
      cleared; every other bit keeps the base value. The resolved mask is the
      only number with those bits. */
  lemma ResolveRules(base: nat, allow: nat, deny: nat, i: nat)
    ensures Bit(allow, i) ==> Bit(Resolve(base, allow, deny), i)
    ensures Bit(deny, i) && !Bit(allow, i) ==> !Bit(Resolve(base, allow, deny), i)
    ensures !Bit(allow, i) && !Bit(deny, i) ==> Bit(Resolve(base, allow, deny), i) == Bit(base, i)
  {
  }

  /** Any mask with the resolved bits is the resolved mask. */
  lemma ResolveUnique(base: nat, allow: nat, deny: nat, m: nat)
    requires forall i: nat :: Bit(m, i) == (Bit(allow, i) || (Bit(base, i) && !Bit(deny, i)))
    ensures m == Resolve(base, allow, deny)
  {
    BitsDetermineMask(m, Resolve(base, allow, deny));
  }

  /** Bit positions of the flags the channel-lock rule reads. */
  const ReadMessages: nat := 10
  const Connect: nat := 20
  const Speak: nat := 21

  /** How a permission name is shown: underscores become spaces, `guild`
      becomes `server`, then title case. */
  function DisplayName(name: string): string {
    Title(Replace(Replace(name, "_", " "), "guild", "server"))
  }

  lemma {:induction false} ReplaceKeepsCharOut(s: string, pat: string, rep: string, c: char)
    requires |pat| > 0 && c !in s && c !in rep
    ensures c !in Replace(s, pat, rep)
    decreases |s|
  {
    if |s| > 0 {
      ReplaceKeepsCharOut(s[1..], pat, rep, c);
      if StartsWith(s, pat) {
        assert s[|pat|..] == s[1..][|pat| - 1..];
        ReplaceKeepsCharOut(s[|pat|..], pat, rep, c);
      }
    }
  }

  /** A shown permission name never contains an underscore. */
  lemma DisplayNameHasNoUnderscore(name: string)
    ensures '_' !in DisplayName(name)
  {
    var spaced := Replace(name, "_", " ");
    ReplaceCharPointwise(name, '_', ' ');
    assert '_' !in spaced by {
      forall i | 0 <= i < |spaced|
        ensures spaced[i] != '_'
      {
      }
    }
    var renamed := Replace(spaced, "guild", "server");
    ReplaceKeepsCharOut(spaced, "guild", "server", '_');
    var shown := Title(renamed);
    forall i | 0 <= i < |shown|
      ensures shown[i] != '_'
    {
      assert renamed[i] != '_';
    }
  }

  /** A permission flag name: lower-case letters joined by underscores. */
  predicate IsFlagName(name: string) {
    forall i :: 0 <= i < |name| ==> IsAsciiLower(name[i]) || name[i] == '_'
  }

  /** No shown flag name says `guild`: every occurrence became `server`, and
      title case does not bring the word back. */
  lemma DisplayNameSaysServer(name: string)
    requires IsFlagName(name)
    ensures !Contains(DisplayName(name), "guild")
  {
    var spaced := Replace(name, "_", " ");
    ReplaceCharPointwise(name, '_', ' ');
    assert forall i :: 0 <= i < |spaced| ==> !IsAsciiUpper(spaced[i]) by {
      forall i | 0 <= i < |spaced|
        ensures !IsAsciiUpper(spaced[i])
      {
        assert spaced[i] == if name[i] == '_' then ' ' else name[i];
      }
    }
    var renamed := Replace(spaced, "guild", "server");
    forall i | 0 <= i < |renamed|
      ensures !IsAsciiUpper(renamed[i])
    {
      var c := renamed[i];
      if IsAsciiUpper(c) {
        ReplaceKeepsCharOut(spaced, "guild", "server", c);
        assert false;
      }
    }
    var shown := Title(renamed);
    forall k: nat
      ensures !OccursAt(shown, "guild", k)
    {
      ReplaceLeavesNoPattern(spaced, "guild", "server", k);
      if OccursAt(shown, "guild", k) {
        TitleKeepsLowerOccurrence(renamed, "guild", k);
        assert false;
      }
    }
    ContainsIffOccurs(shown, "guild");
  }

  /** The flag `manage_guild` is shown as `Manage Server`. */
  lemma ManageGuildShown()
    ensures DisplayName("manage_guild") == "Manage Server"
  {
    ManageGuildSpaced();
    ManageGuildRenamed();
    ManageServerTitled();
  }

  lemma ManageGuildSpaced()
    ensures Replace("manage_guild", "_", " ") == "manage guild"
  {
    ReplaceCharPointwise("manage_guild", '_', ' ');
  }

  lemma ManageGuildRenamed()
    ensures Replace("manage guild", "guild", "server") == "manage server"
  {
    var a, b := "manage ", "guild";
    forall k | 0 <= k < |a|
      ensures !StartsWith((a + b)[k..], b)
    {
      var t := (a + b)[k..];
      assert t[0] != 'g' || t[1] != 'u';
      assert t[..|b|][0] == t[0] && t[..|b|][1] == t[1];
    }
    ReplaceSkipsPrefix(a, b, b, "server");
    ReplaceAtMatch(b, b, "server");
    assert b[|b|..] == [];
    assert a + b == "manage guild";
    assert a + "server" == "manage server";
  }

  lemma ManageServerTitled()
    ensures Title("manage server") == "Manage Server"
  {
    TitleAtSpace("manage", "server");
    assert "manage" + " " + "server" == "manage server";
    ManageTitled();
    ServerTitled();
    assert "Manage" + " " + "Server" == "Manage Server";
  }

  lemma ManageTitled()
    ensures Title("manage") == "Manage"
  {
    TitleWord("manage");
    assert "manage"[1..] == "anage";
  }

  lemma ServerTitled()
    ensures Title("server") == "Server"
  {
    TitleWord("server");
    assert "server"[1..] == "erver";
  }

  /** The (name, bit) table of permission flags, in the library's order. */
  type FlagTable = seq<(string, nat)>

  /** Iterating a permission set: each flag's name with its value in `mask`. */
  function PermissionPairs(mask: nat, table: FlagTable): (r: seq<(string, bool)>)
    ensures |r| == |table|
    ensures forall k :: 0 <= k < |r| ==> r[k].0 == table[k].0 && r[k].1 == Bit(mask, table[k].1)
  {
    seq(|table|, k requires 0 <= k < |table| => (table[k].0, Bit(mask, table[k].1)))
  }

  /** The two lists the `permissions` embed shows. */
  datatype Split = Split(allowed: seq<string>, denied: seq<string>)

  /** Reference definition of the split: set permissions go to `allowed`, the
      others to `denied`, each under its shown name, in iteration order. */
  function Partitioned(pairs: seq<(string, bool)>): (r: Split)
    ensures |r.allowed| + |r.denied| == |pairs|
    decreases |pairs|
  {
    if |pairs| == 0 then Split([], [])
    else
      var front := Partitioned(pairs[..|pairs| - 1]);
      var (name, value) := pairs[|pairs| - 1];
      if value then Split(front.allowed + [DisplayName(name)], front.denied)
      else Split(front.allowed, front.denied + [DisplayName(name)])
  }

  /** Unfolds `Partitioned` once at the last pair. */
  lemma PartitionedLast(pairs: seq<(string, bool)>)
    requires |pairs| > 0
    ensures var front, last := Partitioned(pairs[..|pairs| - 1]), pairs[|pairs| - 1];
      Partitioned(pairs) ==
        if last.1 then Split(front.allowed + [DisplayName(last.0)], front.denied)
        else Split(front.allowed, front.denied + [DisplayName(last.0)])
  {
  }

  /** Splitting a concatenation splits each half and concatenates the lists:
      the split keeps the iteration order in both lists. */
  lemma {:induction false} PartitionedAppend(a: seq<(string, bool)>, b: seq<(string, bool)>)
    ensures Partitioned(a + b).allowed == Partitioned(a).allowed + Partitioned(b).allowed
    ensures Partitioned(a + b).denied == Partitioned(a).denied + Partitioned(b).denied
    decreases |b|
  {
    if |b| == 0 {
      assert a + b == a;
    } else {
      var b' := b[..|b| - 1];
      PartitionedAppend(a, b');
      assert (a + b)[..|a + b| - 1] == a + b';
      assert (a + b)[|a + b| - 1] == b[|b| - 1];
      PartitionedLast(a + b);
      PartitionedLast(b);
      var pa, pb' := Partitioned(a), Partitioned(b');
      var shown := [DisplayName(b[|b| - 1].0)];
      if b[|b| - 1].1 {
        ConcatAssoc(pa.allowed, pb'.allowed, shown);
      } else {
        ConcatAssoc(pa.denied, pb'.denied, shown);
      }
    }
  }

  /** Every permission lands in the list its value selects, under its shown
      name. */
  lemma {:induction false} PartitionedPlacesEach(pairs: seq<(string, bool)>, k: nat)
    requires k < |pairs|
    ensures pairs[k].1 ==> DisplayName(pairs[k].0) in Partitioned(pairs).allowed
    ensures !pairs[k].1 ==> DisplayName(pairs[k].0) in Partitioned(pairs).denied
  {
    var before, at, after := pairs[..k], [pairs[k]], pairs[k + 1..];
    assert pairs == before + at + after;
    PartitionedAppend(before + at, after);
    PartitionedAppend(before, at);
    assert at[..0] == [];
  }

  /** `say_permissions`: the loop that walks the permissions and appends each
      shown name to `allowed` or `denied`. */
  method SplitPermissions(pairs: seq<(string, bool)>) returns (allowed: seq<string>, denied: seq<string>)
    ensures Split(allowed, denied) == Partitioned(pairs)
    ensures |allowed| + |denied| == |pairs|
    ensures forall k :: 0 <= k < |pairs| && pairs[k].1 ==> DisplayName(pairs[k].0) in allowed
    ensures forall k :: 0 <= k < |pairs| && !pairs[k].1 ==> DisplayName(pairs[k].0) in denied
  {
    allowed, denied := [], [];
    var i := 0;
    while i < |pairs|
      invariant i <= |pairs|
      invariant Split(allowed, denied) == Partitioned(pairs[..i])
    {
      var (name, value) := pairs[i];
      var shown := DisplayName(name);
      if value {
        allowed := allowed + [shown];
      } else {
        denied := denied + [shown];
      }
      assert pairs[..i + 1][..i] == pairs[..i];
      i := i + 1;
    }
    assert pairs[..i] == pairs;
    forall k | 0 <= k < |pairs|
      ensures pairs[k].1 ==> DisplayName(pairs[k].0) in allowed
      ensures !pairs[k].1 ==> DisplayName(pairs[k].0) in denied
    {
      PartitionedPlacesEach(pairs, k);
    }
  }
}
