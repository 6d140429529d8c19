/** What `to`, `cc` and `bcc` do to the recipient map, as values: the
    argument is a string or an (arbitrarily nested) array; array elements
    and the pieces of a `", "`-separated string are each sent back through
    the same recipient class, and every single address that passes the
    address check is appended, in order, to that class's list. */
module Recipients {
  import opened PhpStrings

  /** The three recipient classes (`'to'`, `'cc'`, `'bcc'`). */
  datatype Class = To | Cc | Bcc

  /** A PHP argument of `to`/`cc`/`bcc`: a string or an array of arguments. */
  datatype AddressArg = Text(s: string) | Items(elems: seq<AddressArg>)

  /** `$this->recipients`: recipient class to the addresses added so far. */
  type RecipientMap = map<Class, seq<string>>

  /** The addresses of class c; an unset class has none. */
  function Lookup(m: RecipientMap, c: Class): seq<string>
  {
    if c in m then m[c] else []
  }

  /** `$this->recipients[$type][] = $address`. */
  function Push(m: RecipientMap, c: Class, address: string): RecipientMap
  {
    m[c := Lookup(m, c) + [address]]
  }

  /** Pushing the addresses xs one after the other. */
  function PushAll(m: RecipientMap, c: Class, xs: seq<string>): RecipientMap
  {
    if xs == [] then m else Push(PushAll(m, c, xs[..|xs| - 1]), c, xs[|xs| - 1])
  }

  /** Pushing a list appends it to class c, creates the class only when the
      list is non-empty, and leaves every other class as it was. */
  lemma {:induction false} PushAllAppends(m: RecipientMap, c: Class, xs: seq<string>)
    ensures PushAll(m, c, xs) == if xs == [] then m else m[c := Lookup(m, c) + xs]
  {
    if xs != [] {
      var init, last := xs[..|xs| - 1], xs[|xs| - 1];
      PushAllAppends(m, c, init);
      var p := PushAll(m, c, init);
      assert PushAll(m, c, xs) == p[c := Lookup(p, c) + [last]];
      assert init + [last] == xs;
      if init == [] {
        assert p == m;
      } else {
        assert p == m[c := Lookup(m, c) + init];
        assert Lookup(p, c) + [last] == Lookup(m, c) + xs;
      }
    }
  }

  /** Pushing xs and then ys is pushing xs + ys. */
  lemma {:induction false} PushAllConcat(m: RecipientMap, c: Class, xs: seq<string>, ys: seq<string>)
    ensures PushAll(PushAll(m, c, xs), c, ys) == PushAll(m, c, xs + ys)
    decreases |ys|
  {
    if ys == [] {
      assert xs + ys == xs;
    } else {
      var init := ys[..|ys| - 1];
      assert (xs + ys)[..|xs + ys| - 1] == xs + init;
      assert (xs + ys)[|xs + ys| - 1] == ys[|ys| - 1];
      PushAllConcat(m, c, xs, init);
    }
  }

  /** Pushing to class c never touches another class. */
  lemma PushAllOtherClass(m: RecipientMap, c: Class, xs: seq<string>, other: Class)
    requires other != c
    ensures Lookup(PushAll(m, c, xs), other) == Lookup(m, other)
    ensures other in PushAll(m, c, xs) <==> other in m
  {
    PushAllAppends(m, c, xs);
  }

  /** The single-address strings an argument reaches, left to right: a
      string containing `", "` is exploded, any other string is one address,
      and an array contributes the addresses of its elements in order. */
  function Leaves(a: AddressArg): seq<string>
  {
    match a
    case Text(s) => if ContainsSep(s) then Explode(s) else [s]
    case Items(es) => LeavesOf(es)
  }

  /** The addresses reached by a sequence of arguments, in order. */
  function LeavesOf(es: seq<AddressArg>): seq<string>
    decreases es
  {
    if es == [] then [] else LeavesOf(es[..|es| - 1]) + Leaves(es[|es| - 1])
  }

  /** The addresses of xs that pass the address check, in order. */
  function Filter(valid: string -> bool, xs: seq<string>): seq<string>
  {
    if xs == [] then []
    else Filter(valid, xs[..|xs| - 1]) + (if valid(xs[|xs| - 1]) then [xs[|xs| - 1]] else [])
  }

  /** The addresses an argument adds to its recipient class. */
  function Accepted(valid: string -> bool, a: AddressArg): seq<string>
  {
    Filter(valid, Leaves(a))
  }

  /** Filter keeps exactly the addresses that pass the check, in order. */
  lemma {:induction false} FilterConcat(valid: string -> bool, xs: seq<string>, ys: seq<string>)
    ensures Filter(valid, xs + ys) == Filter(valid, xs) + Filter(valid, ys)
    decreases |ys|
  {
    if ys == [] {
      assert xs + ys == xs;
    } else {
      var init := ys[..|ys| - 1];
      assert (xs + ys)[..|xs + ys| - 1] == xs + init;
      FilterConcat(valid, xs, init);
    }
  }

  /** Everything an argument adds passes the address check and is one of
      the addresses the argument reaches. */
  lemma {:induction false} FilterSound(valid: string -> bool, xs: seq<string>)
    ensures forall x :: x in Filter(valid, xs) ==> valid(x) && x in xs
  {
    if xs != [] {
      FilterSound(valid, xs[..|xs| - 1]);
      assert xs == xs[..|xs| - 1] + [xs[|xs| - 1]];
    }
  }

  /** Every reached address that passes the check is added. */
  lemma {:induction false} FilterComplete(valid: string -> bool, xs: seq<string>)
    ensures forall x :: x in xs && valid(x) ==> x in Filter(valid, xs)
  {
    if xs != [] {
      FilterComplete(valid, xs[..|xs| - 1]);
      assert xs == xs[..|xs| - 1] + [xs[|xs| - 1]];
    }
  }

  /** The reached addresses of a sequence of arguments split like the sequence. */
  lemma {:induction false} LeavesOfConcat(es: seq<AddressArg>, fs: seq<AddressArg>)
    ensures LeavesOf(es + fs) == LeavesOf(es) + LeavesOf(fs)
    decreases |fs|
  {
    if fs == [] {
      assert es + fs == es;
    } else {
      var init := fs[..|fs| - 1];
      assert (es + fs)[..|es + fs| - 1] == es + init;
      LeavesOfConcat(es, init);
    }
  }

  /** A single address (no `", "` in it) adds itself when it passes the
      check and nothing otherwise; a comma not followed by a space does not
      split it. */
  lemma SingleAddress(valid: string -> bool, s: string)
    requires !ContainsSep(s)
    ensures Accepted(valid, Text(s)) == if valid(s) then [s] else []
  {
    assert Filter(valid, [s]) == Filter(valid, []) + (if valid(s) then [s] else []);
  }

  /** `to($s)` with one valid single address appends it exactly once at the
      end of its class; with an invalid one it changes nothing. */
  lemma AddSingleAddress(valid: string -> bool, m: RecipientMap, c: Class, s: string)
    requires !ContainsSep(s)
    ensures valid(s) ==> PushAll(m, c, Accepted(valid, Text(s))) == m[c := Lookup(m, c) + [s]]
    ensures !valid(s) ==> PushAll(m, c, Accepted(valid, Text(s))) == m
  {
    SingleAddress(valid, s);
    PushAllAppends(m, c, Accepted(valid, Text(s)));
  }

  /** The arguments `$this->{$type}($piece)` is called with for a list of pieces. */
  function Texts(pieces: seq<string>): seq<AddressArg>
  {
    seq(|pieces|, i requires 0 <= i < |pieces| => Text(pieces[i]))
  }

  lemma {:induction false} LeavesOfTexts(pieces: seq<string>)
    requires forall i :: 0 <= i < |pieces| ==> !ContainsSep(pieces[i])
    ensures LeavesOf(Texts(pieces)) == pieces
  {
    if pieces != [] {
      var init := pieces[..|pieces| - 1];
      assert Texts(pieces)[..|pieces| - 1] == Texts(init);
      LeavesOfTexts(init);
    }
  }

  /** A `", "`-separated string adds exactly what calling the same class
      method on each exploded piece, left to right, adds. */
  lemma SplitIsPieceByPiece(valid: string -> bool, s: string)
    requires ContainsSep(s)
    ensures Accepted(valid, Text(s)) == Accepted(valid, Items(Texts(Explode(s))))
  {
    PiecesHaveNoSep(s);
    LeavesOfTexts(Explode(s));
  }

  /** `to('a, b')` adds what `to('a')` followed by `to('b')` adds. */
  lemma TwoAddressList(valid: string -> bool, m: RecipientMap, c: Class, a: string, b: string)
    requires !ContainsSep(a) && !ContainsSep(b)
    ensures PushAll(m, c, Accepted(valid, Text(a + Sep + b)))
         == PushAll(PushAll(m, c, Accepted(valid, Text(a))), c, Accepted(valid, Text(b)))
  {
    var s := a + Sep + b;
    assert SepAt(s, |a|);
    ExplodeFirstPiece(a, b);
    ExplodeWithoutSep(b);
    assert Leaves(Text(s)) == [a] + [b];
    FilterConcat(valid, [a], [b]);
    PushAllConcat(m, c, Accepted(valid, Text(a)), Accepted(valid, Text(b)));
  }

  /** A comma that is not followed by a space does not split: `a,b` is
      checked, and added or dropped, as one address. */
  lemma CommaWithoutSpace(valid: string -> bool, a: string, b: string)
    requires !ContainsSep(a) && !ContainsSep(b)
    requires b == [] || b[0] != ' '
    ensures Accepted(valid, Text(a + "," + b)) == if valid(a + "," + b) then [a + "," + b] else []
  {
    var s := a + "," + b;
    assert !ContainsSep(s) by {
      forall i | 0 <= i < |s| ensures !SepAt(s, i) {
        if i + 1 < |a| {
          assert s[i] == a[i] && s[i + 1] == a[i + 1];
          assert !SepAt(a, i);
        } else if i + 1 == |a| {
          assert s[i + 1] == ',';
        } else if i == |a| {
          assert i + 1 < |s| ==> s[i + 1] == b[0];
        } else {
          assert s[i] == b[i - |a| - 1];
          assert i + 1 < |s| ==> s[i + 1] == b[i - |a|];
          assert !SepAt(b, i - |a| - 1);
        }
      }
    }
    SingleAddress(valid, s);
  }

  /** Adding the elements of es one after the other, each through class c. */
  function AddEach(valid: string -> bool, m: RecipientMap, c: Class, es: seq<AddressArg>): RecipientMap
    decreases |es|
  {
    if es == [] then m else AddEach(valid, PushAll(m, c, Accepted(valid, es[0])), c, es[1..])
  }

  /** What an array adds splits into its first element and the rest. */
  lemma AcceptedFirstAndRest(valid: string -> bool, es: seq<AddressArg>)
    requires es != []
    ensures Accepted(valid, Items(es)) == Accepted(valid, es[0]) + Accepted(valid, Items(es[1..]))
  {
    var first, rest := es[0], es[1..];
    assert es == [first] + rest;
    LeavesOfConcat([first], rest);
    assert LeavesOf([first]) == Leaves(first) by {
      assert [first][..0] == [];
    }
    FilterConcat(valid, Leaves(first), LeavesOf(rest));
  }

  /** An array argument adds exactly what adding its elements in order adds. */
  lemma {:induction false} ArrayIsElementByElement(valid: string -> bool, m: RecipientMap, c: Class, es: seq<AddressArg>)
    ensures PushAll(m, c, Accepted(valid, Items(es))) == AddEach(valid, m, c, es)
    decreases |es|
  {
    if es == [] {
      assert LeavesOf(es) == [];
      assert Leaves(Items(es)) == [];
      assert Accepted(valid, Items(es)) == Filter(valid, []) == [];
    } else {
      AcceptedFirstAndRest(valid, es);
      PushAllConcat(m, c, Accepted(valid, es[0]), Accepted(valid, Items(es[1..])));
      ArrayIsElementByElement(valid, PushAll(m, c, Accepted(valid, es[0])), c, es[1..]);
    }
  }

  /** An address never lands in a class other than the one it was added
      through, and only addresses that pass the check and that the argument
      reaches are added. */
  lemma AddedAddresses(valid: string -> bool, m: RecipientMap, c: Class, a: AddressArg)
    ensures forall other :: other != c ==> Lookup(PushAll(m, c, Accepted(valid, a)), other) == Lookup(m, other)
    ensures Lookup(PushAll(m, c, Accepted(valid, a)), c) == Lookup(m, c) + Accepted(valid, a)
    ensures forall x :: x in Accepted(valid, a) ==> valid(x) && x in Leaves(a)
    ensures forall x :: x in Leaves(a) && valid(x) ==> x in Accepted(valid, a)
  {
    PushAllAppends(m, c, Accepted(valid, a));
    FilterSound(valid, Leaves(a));
    FilterComplete(valid, Leaves(a));
  }

  /** One turn of the loop over an array's elements. */
  lemma ElementStep(valid: string -> bool, m: RecipientMap, c: Class, es: seq<AddressArg>, i: nat)
    requires i < |es|
    ensures PushAll(PushAll(m, c, Filter(valid, LeavesOf(es[..i]))), c, Accepted(valid, es[i]))
         == PushAll(m, c, Filter(valid, LeavesOf(es[..i + 1])))
  {
    assert es[..i + 1][..i] == es[..i];
    FilterConcat(valid, LeavesOf(es[..i]), Leaves(es[i]));
    PushAllConcat(m, c, Filter(valid, LeavesOf(es[..i])), Accepted(valid, es[i]));
  }

  /** One turn of the loop over the pieces of an exploded string. */
  lemma PieceStep(valid: string -> bool, m: RecipientMap, c: Class, pieces: seq<string>, i: nat)
    requires i < |pieces| && !ContainsSep(pieces[i])
    ensures PushAll(PushAll(m, c, Filter(valid, pieces[..i])), c, Accepted(valid, Text(pieces[i])))
         == PushAll(m, c, Filter(valid, pieces[..i + 1]))
  {
    SingleAddress(valid, pieces[i]);
    assert pieces[..i + 1][..i] == pieces[..i];
    PushAllConcat(m, c, Filter(valid, pieces[..i]), Accepted(valid, Text(pieces[i])));
  }

  function Sum(ws: seq<nat>): nat
  {
    if ws == [] then 0 else ws[0] + Sum(ws[1..])
  }

  lemma {:induction false} SumBound(ws: seq<nat>, i: nat)
    requires i < |ws|
    ensures ws[i] <= Sum(ws)
  {
    if i > 0 {
      SumBound(ws[1..], i - 1);
    }
  }

  /** A termination measure for the recursive expansion: an array weighs
      more than each of its elements, and a string with `", "` weighs more
      than each of its pieces, which have no `", "`. */
  function Weight(a: AddressArg): nat
  {
    match a
    case Text(s) => if ContainsSep(s) then 2 else 1
    case Items(es) => 1 + Sum(seq(|es|, i requires 0 <= i < |es| => Weight(es[i])))
  }

  lemma ElementWeighsLess(es: seq<AddressArg>, i: nat)
    requires i < |es|
    ensures Weight(es[i]) < Weight(Items(es))
  {
    var ws := seq(|es|, j requires 0 <= j < |es| => Weight(es[j]));
    SumBound(ws, i);
  }
}
