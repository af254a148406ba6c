/** Reading and writing JSON trees by paths of names, array indices and templates: the lens laws. */
module StatePaths {
  import opened Options

  /** A property name: a canonical array index, a canonical negative integer, or any other text. */
  datatype Name = Index(i: nat) | Minus(n: nat) | Text(text: string)

  const LENGTH := Text("length")
  const ID := Text("id")

  /** An array has items, and like an object it can have properties of its own. JSON arrays have none. */
  datatype Value =
    | Undefined
    | Null
    | Bool(b: bool)
    | Num(n: real)
    | Str(s: string)
    | Arr(items: seq<Value>, own: map<Name, Value>)
    | Obj(fields: map<Name, Value>)
  {
    predicate Falsy() {
      this == Undefined || this == Null || this == Bool(false) || this == Num(0.0) || this == Str("")
    }

    predicate Container() {
      Arr? || Obj?
    }
  }

  datatype Element = Key(name: Name) | Template(fields: map<Name, Value>)

  type Path = seq<Element>

  datatype Outcome = Ok(value: Value) | Throws

  function Get(node: Value, name: Name): Value {
    if node.Obj? && name in node.fields then node.fields[name]
    else if node.Arr? && name.Index? && name.i < |node.items| then node.items[name.i]
    else if node.Arr? && !name.Index? && name in node.own then node.own[name]
    else Undefined
  }

  predicate Has(node: Value, name: Name) {
    || (node.Obj? && name in node.fields)
    || (node.Arr? && if name.Index? then name.i < |node.items| else name in node.own)
  }

  /** Cloning an array leaves its own properties behind. */
  function Clone(node: Value): Value {
    if node.Arr? then Arr(node.items, map[]) else node
  }

  // ---- Templates

  /** What the names of the template's leaves pick from the item equals the template. */
  predicate Matches(item: Value, t: map<Name, Value>) {
    t == map[] || Says(item, Obj(t))
  }

  /**
   * Of an array the template tells the beginning, and nothing it owns. What is picked under an index becomes an array,
   * so below the top an object with an index among its names is matched by nothing.
   */
  predicate MatchesAt(x: Value, leaf: Value)
    decreases leaf, 1
  {
    if Empty(leaf) then if leaf.Arr? then x.Arr? && x.items == [] else x == leaf
    else (leaf.Obj? ==> forall k <- leaf.fields :: !k.Index?) && Says(x, leaf)
  }

  predicate Says(x: Value, leaf: Value)
    decreases leaf, 0
  {
    x.Container() &&
    match leaf
    case Obj(fields) => forall k <- fields :: Has(Clone(x), k) && MatchesAt(Get(x, k), fields[k])
    case Arr(items, _) =>
      && 0 < |items| && Has(x, Index(|items| - 1))
      && forall i | 0 <= i < |items| :: MatchesAt(Get(x, Index(i)), items[i])
    case _ => false
  }

  /** A scalar, or a container of nothing. */
  predicate Empty(leaf: Value) {
    !leaf.Container() || leaf == Obj(map[]) || (leaf.Arr? && leaf.items == [])
  }

  /** The position of the first item that matches, or the length. */
  function Find(items: seq<Value>, t: map<Name, Value>): (i: nat)
    ensures i <= |items|
    ensures i < |items| ==> Matches(items[i], t)
    ensures forall j :: 0 <= j < i ==> !Matches(items[j], t)
  {
    if items == [] then 0
    else if Matches(items[0], t) then 0
    else
      var i := Find(items[1..], t);
      assert forall j :: 1 <= j <= i ==> items[j] == items[1..][j - 1];
      1 + i
  }

  // ---- What a template finds, leaf by leaf

  /** Following the names leads to a leaf of the template. */
  predicate LeafAt(v: Value, names: seq<Name>)
    decreases |names|
  {
    if names == [] then Empty(v)
    else !Empty(v) && Has(Clone(v), names[0]) && LeafAt(Get(v, names[0]), names[1..])
  }

  predicate LastOf(v: Value, name: Name)
    requires v.Arr?
  {
    name.Index? && name.i + 1 == |v.items|
  }

  /** Following the same names in x leads to the leaf. Only before the end of an array may an undefined one be missing. */
  predicate Picks(x: Value, v: Value, names: seq<Name>)
    decreases |names|
  {
    if names == [] then x == v || (x.Arr? && v.Arr? && x.items == v.items == [])
    else
      && x.Container()
      && (Has(Clone(x), names[0]) || (v.Arr? && !LastOf(v, names[0]) && Get(v, names[0]) == Undefined))
      && Picks(Get(x, names[0]), Get(v, names[0]), names[1..])
  }

  /** No object in the value has an index among its names. */
  predicate IndexFree(v: Value) {
    match v
    case Obj(fields) => forall k <- fields :: !k.Index? && IndexFree(fields[k])
    case Arr(items, _) => forall i | 0 <= i < |items| :: IndexFree(items[i])
    case _ => true
  }

  /** Every leaf of the template is what its names pick from the item. */
  ghost predicate Picked(item: Value, t: map<Name, Value>) {
    t == map[] ||
    (&& (forall k <- t :: IndexFree(t[k]))
     && (forall names :: LeafAt(Obj(t), names) ==> Picks(item, Obj(t), names)))
  }

  ghost predicate AllPicks(x: Value, v: Value) {
    forall names :: LeafAt(v, names) ==> Picks(x, v, names)
  }

  lemma {:induction false} SomeLeaf(v: Value) returns (names: seq<Name>)
    ensures LeafAt(v, names)
    decreases v
  {
    if Empty(v) {
      names := [];
    } else {
      var k := if v.Arr? then Index(0) else var k :| k in v.fields; k;
      var below := SomeLeaf(Get(v, k));
      names := [k] + below;
      assert names[1..] == below;
    }
  }

  predicate PresentAt(x: Value, v: Value, k: Name) {
    && x.Container()
    && (Has(Clone(x), k) || (v.Arr? && !LastOf(v, k) && Get(v, k) == Undefined))
  }

  lemma PicksBelow(x: Value, v: Value)
    requires !Empty(v)
    ensures AllPicks(x, v) <==>
            forall k | Has(Clone(v), k) :: PresentAt(x, v, k) && AllPicks(Get(x, k), Get(v, k))
  {
    if AllPicks(x, v) {
      forall k | Has(Clone(v), k) ensures PresentAt(x, v, k) && AllPicks(Get(x, k), Get(v, k)) {
        var some := SomeLeaf(Get(v, k));
        assert ([k] + some)[1..] == some && LeafAt(v, [k] + some);
        forall names | LeafAt(Get(v, k), names) ensures Picks(Get(x, k), Get(v, k), names) {
          assert ([k] + names)[1..] == names && LeafAt(v, [k] + names);
        }
      }
    } else if forall k | Has(Clone(v), k) :: PresentAt(x, v, k) && AllPicks(Get(x, k), Get(v, k)) {
      forall names | LeafAt(v, names) ensures Picks(x, v, names) {
        assert PresentAt(x, v, names[0]) && AllPicks(Get(x, names[0]), Get(v, names[0]));
      }
    }
  }

  /** What is said of an array is said of each item, and the last one has to be there. */
  lemma ItemsPresent(x: Value, v: Value)
    requires !Empty(v) && v.Arr?
    ensures Says(x, v) <==>
            forall k | Has(Clone(v), k) :: PresentAt(x, v, k) && MatchesAt(Get(x, k), Get(v, k))
  {
    if Says(x, v) {
      forall k | Has(Clone(v), k) ensures PresentAt(x, v, k) && MatchesAt(Get(x, k), Get(v, k)) {
        assert MatchesAt(Get(x, Index(k.i)), v.items[k.i]);
      }
    } else if forall k | Has(Clone(v), k) :: PresentAt(x, v, k) && MatchesAt(Get(x, k), Get(v, k)) {
      assert Has(Clone(v), Index(|v.items| - 1));
      forall i | 0 <= i < |v.items| ensures MatchesAt(Get(x, Index(i)), v.items[i]) {
        assert Has(Clone(v), Index(i));
      }
    }
  }

  lemma FieldsPresent(x: Value, v: Value)
    requires !Empty(v) && v.Obj?
    ensures Says(x, v) <==>
            forall k | Has(Clone(v), k) :: PresentAt(x, v, k) && MatchesAt(Get(x, k), Get(v, k))
  {
    hide MatchesAt;
    var some :| some in v.fields;
    assert Has(Clone(v), some);
    if forall k | Has(Clone(v), k) :: PresentAt(x, v, k) && MatchesAt(Get(x, k), Get(v, k)) {
      forall k <- v.fields ensures Has(Clone(x), k) && MatchesAt(Get(x, k), v.fields[k]) {
        assert Has(Clone(v), k);
      }
    }
  }

  lemma {:induction false} SaysPicks(x: Value, v: Value)
    requires !Empty(v)
    ensures Says(x, v) <==> (forall k | Has(Clone(v), k) :: IndexFree(Get(v, k))) && AllPicks(x, v)
    decreases v, 0
  {
    hide MatchesAt, Says, AllPicks, IndexFree;
    forall k | Has(Clone(v), k)
      ensures MatchesAt(Get(x, k), Get(v, k)) <==> IndexFree(Get(v, k)) && AllPicks(Get(x, k), Get(v, k))
    {
      MatchesPicks(Get(x, k), Get(v, k));
    }
    PicksBelow(x, v);
    if v.Arr? {
      ItemsPresent(x, v);
    } else {
      FieldsPresent(x, v);
    }
    hide PresentAt, Get, Has;
  }

  lemma {:induction false} MatchesPicks(x: Value, v: Value)
    ensures MatchesAt(x, v) <==> IndexFree(v) && AllPicks(x, v)
    decreases v, 1
  {
    if Empty(v) {
      assert LeafAt(v, []);
      assert AllPicks(x, v) <==> Picks(x, v, []) by {
        forall names | LeafAt(v, names) ensures names == [] {
        }
      }
    } else {
      SaysPicks(x, v);
      IndexFreeBelow(v);
      hide AllPicks, Says, IndexFree;
    }
  }

  lemma IndexFreeBelow(v: Value)
    requires v.Container()
    ensures IndexFree(v) <==>
            (v.Obj? ==> forall k <- v.fields :: !k.Index?) && forall k | Has(Clone(v), k) :: IndexFree(Get(v, k))
  {
    if v.Arr? && forall k | Has(Clone(v), k) :: IndexFree(Get(v, k)) {
      forall i | 0 <= i < |v.items| ensures IndexFree(v.items[i]) {
        assert Has(Clone(v), Index(i));
      }
    }
    if v.Obj? && forall k | Has(Clone(v), k) :: IndexFree(Get(v, k)) {
      forall k <- v.fields ensures IndexFree(v.fields[k]) {
        assert Has(Clone(v), k);
      }
    }
  }

  /** That, and nothing else, is what it takes to match. */
  lemma MatchesPicked(item: Value, t: map<Name, Value>)
    ensures Matches(item, t) <==> Picked(item, t)
  {
    hide MatchesAt, Says, AllPicks, IndexFree;
    if t != map[] {
      SaysPicks(item, Obj(t));
      assert forall k :: Has(Clone(Obj(t)), k) <==> k in t;
      PickedUnfolds(item, t);
    }
  }

  lemma PickedUnfolds(item: Value, t: map<Name, Value>)
    requires t != map[]
    ensures Picked(item, t) <==> (forall k <- t :: IndexFree(t[k])) && AllPicks(item, Obj(t))
  {
    hide IndexFree, LeafAt, Picks;
  }

  // ---- Reading

  predicate Digit(c: char) {
    '0' <= c <= '9'
  }

  function Digits(s: string, value: nat): nat {
    if s == [] || !Digit(s[0]) then value else Digits(s[1..], 10 * value + (s[0] - '0') as nat)
  }

  /** parseInt on decimal text: an optional sign and the leading digits. */
  function ParseInt(s: string): Option<int> {
    var unsigned := if s != [] && s[0] in "+-" then s[1..] else s;
    if unsigned == [] || !Digit(unsigned[0]) then None
    else
      var n: int := Digits(unsigned, 0);
      Some(if s[0] == '-' then -n else n)
  }

  function Resolve(value: Value, path: Path): Outcome
    decreases |path|
  {
    if path == [] then Ok(value)
    else if !value.Container() then Ok(Undefined)
    else
      match path[0]
      case Key(Text(text)) =>
        if value.Obj? then Resolve(Get(value, Text(text)), path[1..])
        else
          var index := ParseInt(text);
          if index == None then Throws
          else Resolve(Get(value, if index.value < 0 then Minus(-index.value) else Index(index.value)), path[1..])
      case Key(name) => Resolve(Get(value, name), path[1..])
      case Template(t) =>
        if value.Obj? then Ok(Undefined)
        else
          var item := Get(value, Index(Find(value.items, t)));
          if item.Falsy() then Ok(Undefined) else Resolve(item, path[1..])
  }

  // ---- Names with dots

  function JoinDots(parts: seq<string>): string
    requires parts != []
  {
    if |parts| == 1 then parts[0] else parts[0] + "." + JoinDots(parts[1..])
  }

  function SplitDots(s: string): (parts: seq<string>)
    ensures parts != [] && JoinDots(parts) == s && forall part <- parts :: '.' !in part
  {
    SplitFrom("", s)
  }

  function SplitFrom(part: string, s: string): (parts: seq<string>)
    requires '.' !in part
    ensures parts != [] && JoinDots(parts) == part + s && forall p <- parts :: '.' !in p
    decreases |s|
  {
    if s == [] then [part]
    else if s[0] == '.' then
      var rest := SplitFrom("", s[1..]);
      assert ([part] + rest)[1..] == rest && part + s == part + "." + s[1..];
      [part] + rest
    else
      assert part + s == (part + [s[0]]) + s[1..];
      SplitFrom(part + [s[0]], s[1..])
  }

  predicate Canonical(s: string) {
    s != [] && (forall c <- s :: Digit(c)) && (s[0] == '0' ==> |s| == 1)
  }

  function Named(s: string): (name: Name)
    ensures name.Index? <==> Canonical(s)
  {
    if Canonical(s) then Index(Digits(s, 0))
    else if s != [] && s[0] == '-' && s != "-0" && Canonical(s[1..]) then Minus(Digits(s[1..], 0))
    else Text(s)
  }

  function Keys(parts: seq<string>): Path {
    seq(|parts|, i requires 0 <= i < |parts| => Key(Named(parts[i])))
  }

  /** The decimal text of a number. */
  function Decimal(n: nat): (s: string)
    ensures s != []
  {
    var last := ['0' + (n % 10) as char];
    if n < 10 then last else Decimal(n / 10) + last
  }

  lemma {:induction false} DigitsThen(s: string, value: nat, c: char)
    requires (forall d <- s :: Digit(d)) && Digit(c)
    ensures Digits(s + [c], value) == 10 * Digits(s, value) + (c - '0') as nat
    decreases |s|
  {
    if s == [] {
      assert (s + [c])[1..] == [];
    } else {
      assert s[0] in s && (s + [c])[1..] == s[1..] + [c];
      DigitsThen(s[1..], 10 * value + (s[0] - '0') as nat, c);
    }
  }

  lemma {:induction false} DecimalReads(n: nat)
    ensures Canonical(Decimal(n)) && Digits(Decimal(n), 0) == n
  {
    var c := '0' + (n % 10) as char;
    if n < 10 {
      assert Decimal(n) == [c] && [c][1..] == [];
    } else {
      DecimalReads(n / 10);
      DigitsThen(Decimal(n / 10), 0, c);
      assert Decimal(n)[0] == Decimal(n / 10)[0];
      assert n / 10 < 10 ==> n / 10 % 10 == n / 10;
    }
  }

  /** Decimal text names the index it says, and so it is read from an array. */
  lemma DecimalNames(n: nat)
    ensures Named(Decimal(n)) == Index(n) && ParseInt(Decimal(n)) == Some(n)
  {
    DecimalReads(n);
    assert Digit(Decimal(n)[0]);
    hide Decimal, Digits;
  }

  /** With a sign it names the negative integer. */
  lemma NegativeNames(n: nat)
    requires 0 < n
    ensures var s := "-" + Decimal(n);
      Named(s) == Minus(n) && ParseInt(s).Some? && ParseInt(s).value + n == 0
  {
    var s := "-" + Decimal(n);
    DecimalReads(n);
    assert s[1..] == Decimal(n);
    assert Digit(s[1]) && !Digit('-');
    assert "-0"[1..] == "0" && Digits("0", 0) == 0;
    hide Decimal, Digits;
  }

  lemma {:induction false} DigitsUpTo(s: string, rest: string, value: nat)
    requires (forall d <- s :: Digit(d)) && (rest != [] ==> !Digit(rest[0]))
    ensures Digits(s + rest, value) == Digits(s, value)
    decreases |s|
  {
    if s == [] {
      assert s + rest == rest;
    } else {
      assert s[0] in s && (s + rest)[0] == s[0] && (s + rest)[1..] == s[1..] + rest;
      DigitsUpTo(s[1..], rest, 10 * value + (s[0] - '0') as nat);
    }
  }

  /** A plus sign, and what follows the digits, do not matter when an index is read; a leading zero makes a name no index. */
  lemma LooseNumbers(n: nat, rest: string)
    requires rest != [] ==> !Digit(rest[0])
    ensures ParseInt(Decimal(n) + rest) == Some(n) && ParseInt("+" + Decimal(n)) == Some(n)
    ensures Named("0" + Decimal(n)) == Text("0" + Decimal(n)) && Named("-0") == Text("-0")
  {
    DecimalReads(n);
    DigitsUpTo(Decimal(n), rest, 0);
    var loose, signed, zero := Decimal(n) + rest, "+" + Decimal(n), "0" + Decimal(n);
    assert loose[0] == Decimal(n)[0] && signed[1..] == Decimal(n) && Digit(Decimal(n)[0]);
    assert |zero| > 1 && zero[0] == '0' && !Digit('-') && "-0"[0] == '-';
    hide Decimal, Digits;
  }

  /** What becomes of a path that is turned into a list of elements once more: names are split at their dots. */
  function Split(path: Path): Path {
    if path == [] then []
    else
      var dotted := path[0].Key? && path[0].name.Text? && '.' in path[0].name.text;
      (if dotted then Keys(SplitDots(path[0].name.text)) else [path[0]]) + Split(path[1..])
  }

  predicate Dotted(path: Path) {
    exists e <- path :: e.Key? && e.name.Text? && '.' in e.name.text
  }

  lemma {:induction false} SplitUndotted(path: Path)
    requires !Dotted(path)
    ensures Split(path) == path
  {
    if path != [] {
      assert path[0] in path && forall e <- path[1..] :: e in path;
      SplitUndotted(path[1..]);
    }
  }

  lemma {:induction false} SplitsEach(p: Path, q: Path)
    ensures Split(p + q) == Split(p) + Split(q)
  {
    if p == [] {
      assert p + q == q;
    } else {
      assert (p + q)[1..] == p[1..] + q;
      SplitsEach(p[1..], q);
    }
  }

  // ---- Writing

  /**
   * What stands in for a child on the way down: its clone; a missing one is replaced by the kind of container that the
   * element that follows asks for, a falsy one by an object.
   */
  function Open(next: Value, following: Element): Value {
    if next == Undefined then
      if following.Template? || following.name.Index? then Arr([], map[]) else Obj(map[])
    else if next.Falsy() then Obj(map[])
    else Clone(next)
  }

  /** The name an element writes to. A template that nothing matches is appended; on an object it has no position at all. */
  function Slot(node: Value, e: Element): Name {
    match e
    case Key(name) => name
    case Template(t) => if node.Arr? then Index(Find(node.items, t)) else Text("undefined")
  }

  /** The length that a value assigned as one means, if it means any: 32 bits are the most there is. */
  function LengthOf(value: Value): (length: Option<nat>)
    ensures length.Some? ==> !value.Container()
  {
    match value
    case Null => Some(0)
    case Bool(b) => Some(if b then 1 else 0)
    case Num(n) => if 0.0 <= n < 4294967296.0 && n.Floor as real == n then Some(n.Floor) else None
    case Str(s) => if (forall c <- s :: Digit(c)) && Digits(s, 0) < 4294967296 then Some(Digits(s, 0)) else None
    case _ => None
  }

  function Resized(items: seq<Value>, n: nat): seq<Value> {
    if n <= |items| then items[..n] else items + seq(n - |items|, _ => Undefined)
  }

  /** Only the length of an array does not take every value. */
  predicate Takes(node: Value, name: Name, value: Value) {
    node.Arr? && name == LENGTH ==> LengthOf(value).Some?
  }

  /** Assigning beyond the end of an array leaves the positions between undefined. */
  function Assign(node: Value, name: Name, value: Value): Value
    requires node.Container()
  {
    if node.Obj? then Obj(node.fields[name := value])
    else if name.Index? then Arr(Placed(node.items, name.i, value), node.own)
    else if name == LENGTH then
      if LengthOf(value).Some? then Arr(Resized(node.items, LengthOf(value).value), node.own) else node
    else Arr(node.items, node.own[name := value])
  }

  function Placed(items: seq<Value>, i: nat, value: Value): seq<Value> {
    if i < |items| then items[i := value] else Resized(items, i) + [value]
  }

  /** A template that nothing matches becomes an item itself. */
  function Next(node: Value, e: Element, following: Element): Value {
    if e.Template? && node.Arr? && Find(node.items, e.fields) == |node.items| then Obj(e.fields)
    else Open(Get(node, Slot(node, e)), following)
  }

  function Store(node: Value, name: Name, value: Value): Outcome
    requires node.Container()
  {
    if Takes(node, name, value) then Ok(Assign(node, name, value)) else Throws
  }

  function Put(node: Value, path: Path, value: Value): Outcome
    requires path != []
    decreases |path|
  {
    if !node.Container() then Throws
    else if |path| == 1 then Store(node, Slot(node, path[0]), value)
    else if path[0].Template? && node.Obj? then Throws
    else
      match Put(Next(node, path[0], path[1]), path[1..], value)
      case Ok(child) => Store(node, Slot(node, path[0]), child)
      case Throws => Throws
  }

  function Set(state: Value, path: Path, value: Value): Outcome {
    if path == [] then Throws else Put(Open(state, path[0]), path, value)
  }

  /** Without the own properties of arrays: what comparing for equality sees. */
  function Bare(v: Value): (bare: Value)
    ensures bare.Container() <==> v.Container()
    ensures bare == Undefined <==> v == Undefined
  {
    match v
    case Arr(items, _) => Arr(seq(|items|, i requires 0 <= i < |items| => Bare(items[i])), map[])
    case Obj(fields) => Obj(map k <- fields :: Bare(fields[k]))
    case _ => v
  }

  predicate Same(a: Value, b: Value) {
    Bare(a) == Bare(b)
  }

  /** The path is taken apart a second time before it is read. */
  function SetIfChanged(state: Value, path: Path, value: Value): Outcome {
    match Resolve(state, Split(path))
    case Throws => Throws
    case Ok(found) => if Same(found, value) then Ok(state) else Set(state, path, value)
  }

  // ---- When a write can be read back

  /** The item that the template leads to still matches it once value is written there, or below it. */
  predicate Keeps(node: Value, path: Path, value: Value)
    requires path != [] && path[0].Template?
  {
    if |path| == 1 then Matches(value, path[0].fields)
    else
      var t, item := path[0].fields, Next(node, path[0], path[1]);
      t == map[] || (Matches(item, t) && KeepsIn(item, Obj(t), path[1..], value))
  }

  /** What leaf says of x still holds after the write. */
  predicate KeepsIn(x: Value, leaf: Value, rest: Path, value: Value)
    requires rest != []
    decreases |rest|
  {
    var name := Slot(x, rest[0]);
    if x.Arr? && name == LENGTH then LengthOf(value).Some? ==> Within(leaf, LengthOf(value).value)
    else if x.Arr? && !name.Index? then true
    else if Empty(leaf) then false
    else
      !Has(Clone(leaf), name) ||
      if |rest| == 1 then MatchesAt(value, Get(leaf, name))
      else KeepsIn(Get(x, name), Get(leaf, name), rest[1..], value)
  }

  /** What leaf says of an array is true of its first n items, too. */
  predicate Within(leaf: Value, n: nat) {
    && (leaf.Obj? ==> forall k <- leaf.fields :: k.Index? ==> k.i < n)
    && (leaf.Arr? ==> |leaf.items| <= n && (leaf.items == [] ==> n == 0))
  }

  /**
   * Nothing on the path stands where a container has to be, no template has to be found in an object, and no array is
   * given a length that is none.
   */
  predicate Writable(node: Value, path: Path, value: Value)
    requires path != []
    decreases |path|
  {
    && node.Container()
    && (node.Arr? && path[0] == Key(LENGTH) ==> |path| == 1 && LengthOf(value).Some?)
    && (1 < |path| ==> (path[0].Template? ==> node.Arr?) && Writable(Next(node, path[0], path[1]), path[1..], value))
  }

  /**
   * Names lead through objects, indices and templates through arrays, and no template is broken by what is written
   * below it.
   */
  predicate Fits(node: Value, path: Path, value: Value)
    requires path != []
    decreases |path|
  {
    && node.Container()
    && (node.Arr? ==> path[0].Template? || path[0].name.Index?)
    && (path[0].Template? ==> node.Arr? && Keeps(node, path, value) && (|path| == 1 ==> !value.Falsy()))
    && (1 < |path| ==> Fits(Next(node, path[0], path[1]), path[1..], value))
  }

  /** The items behind the first that matches. */
  function Behind(node: Value, t: map<Name, Value>): seq<Value>
    requires node.Arr?
  {
    var i := Find(node.items, t);
    if i < |node.items| then node.items[i + 1..] else []
  }

  /**
   * The path fits, but for what happens to read the value anyway: where a name that is no integer comes to an array,
   * it reads an item and writes none, and the value has to be there; where a write breaks its template, the items
   * behind have to read the value; and what has no place, or is falsy in the place of an item, reads as undefined.
   */
  predicate ReadsBack(node: Value, path: Path, value: Value)
    requires path != []
    decreases |path|
  {
    node.Container() &&
    match path[0]
    case Key(name) =>
      if node.Arr? && name.Text? then Writable(node, path, value) && Resolve(node, path) == Ok(value)
      else 1 < |path| ==> ReadsBack(Next(node, path[0], path[1]), path[1..], value)
    case Template(t) =>
      if node.Obj? then |path| == 1 && value == Undefined
      else if !Keeps(node, path, value) then Writable(node, path, value) && Resolve(Arr(Behind(node, t), map[]), path) == Ok(value)
      else if |path| == 1 then value == Undefined || !value.Falsy()
      else ReadsBack(Next(node, path[0], path[1]), path[1..], value)
  }

  lemma {:induction false} WritableExactly(node: Value, path: Path, value: Value)
    requires path != []
    ensures Put(node, path, value).Ok? <==> Writable(node, path, value)
    decreases |path|
  {
    if 1 < |path| && node.Container() && (path[0].Template? ==> node.Arr?) {
      WritableExactly(Next(node, path[0], path[1]), path[1..], value);
      if Put(Next(node, path[0], path[1]), path[1..], value).Ok? {
        PutIsContainer(Next(node, path[0], path[1]), path[1..], value);
      }
    }
  }

  lemma GetAssigned(node: Value, name: Name, value: Value)
    requires node.Container() && (node.Arr? ==> name != LENGTH)
    ensures Get(Assign(node, name, value), name) == value
    ensures Assign(node, name, value).Container() && (Assign(node, name, value).Arr? <==> node.Arr?)
  {}

  lemma GetOther(node: Value, name: Name, value: Value, other: Name)
    requires node.Container() && other != name && (node.Arr? ==> name != LENGTH)
    ensures Get(Assign(node, name, value), other) == Get(node, other)
  {}

  lemma FindAssigned(node: Value, t: map<Name, Value>, item: Value)
    requires node.Arr? && Matches(item, t)
    ensures Find(Assign(node, Index(Find(node.items, t)), item).items, t) == Find(node.items, t)
  {
    var i := Find(node.items, t);
    var items := Assign(node, Index(i), item).items;
    assert items[i] == item;
    assert forall j :: 0 <= j < i ==> items[j] == node.items[j];
  }

  lemma {:induction false} PutIsContainer(node: Value, path: Path, value: Value)
    requires path != [] && Put(node, path, value).Ok?
    ensures Put(node, path, value).value.Container()
    ensures Put(node, path, value).value.Arr? <==> node.Arr?
  {}

  /** Whatever a template is matched by, it matches itself. */
  lemma {:induction false} SelfMatches(x: Value, t: map<Name, Value>)
    requires Matches(x, t)
    ensures Matches(Obj(t), t)
  {
    forall k <- t ensures MatchesAt(t[k], t[k]) {
      SelfMatchesAt(Get(x, k), t[k]);
    }
  }

  lemma {:induction false} SelfMatchesAt(x: Value, leaf: Value)
    requires MatchesAt(x, leaf)
    ensures MatchesAt(leaf, leaf)
    decreases leaf
  {
    match leaf
    case Obj(fields) =>
      forall k <- fields ensures MatchesAt(fields[k], fields[k]) {
        SelfMatchesAt(Get(x, k), fields[k]);
      }
    case Arr(items, _) =>
      forall i | 0 <= i < |items| ensures MatchesAt(items[i], items[i]) {
        SelfMatchesAt(Get(x, Index(i)), items[i]);
      }
    case _ =>
  }

  /** What a write assigns is what the next read finds: an element leads to the same place again. */
  lemma Reaches(node: Value, path: Path, child: Value)
    requires path != [] && node.Container()
    requires node.Arr? ==> path[0].Template? || !path[0].name.Text?
    requires path[0].Template? ==> node.Arr? && Matches(child, path[0].fields)
    ensures var after := Assign(node, Slot(node, path[0]), child);
      && after.Container() && (after.Arr? <==> node.Arr?)
      && Slot(after, path[0]) == Slot(node, path[0])
      && Get(after, Slot(node, path[0])) == child
      && (path[0].Template? ==> Find(after.items, path[0].fields) < |after.items|)
      && ((path[0].Template? && child.Falsy()) || Resolve(after, path) == Resolve(child, path[1..]))
  {
    GetAssigned(node, Slot(node, path[0]), child);
    if path[0].Template? {
      FindAssigned(node, path[0].fields, child);
    }
  }

  /** The write leaves the item matching its template if and only if the template is kept. */
  lemma KeptExactly(node: Value, path: Path, value: Value)
    requires 1 < |path| && node.Arr? && path[0].Template? && Put(Next(node, path[0], path[1]), path[1..], value).Ok?
    ensures Matches(Put(Next(node, path[0], path[1]), path[1..], value).value, path[0].fields) <==> Keeps(node, path, value)
  {
    var t, item := path[0].fields, Next(node, path[0], path[1]);
    var written := Put(item, path[1..], value).value;
    if t != map[] {
      if Matches(item, t) {
        SaysAfter(item, Obj(t), path[1..], value);
      } else if Matches(written, t) {
        SelfMatches(written, t);
      }
    }
  }

  lemma SaysAt(x: Value, leaf: Value, name: Name)
    requires Says(x, leaf) && Has(Clone(leaf), name)
    ensures Has(Clone(x), name) || leaf.Arr?
    ensures MatchesAt(Get(x, name), Get(leaf, name))
  {
    hide MatchesAt;
  }

  lemma {:induction false} SaysAfter(x: Value, leaf: Value, rest: Path, value: Value)
    requires rest != [] && !Empty(leaf) && Says(x, leaf) && Put(x, rest, value).Ok?
    ensures Says(Put(x, rest, value).value, leaf) <==> KeepsIn(x, leaf, rest, value)
    decreases |rest|, 0
  {
    var name := Slot(x, rest[0]);
    var child := if |rest| == 1 then value else Put(Next(x, rest[0], rest[1]), rest[1..], value).value;
    if x.Arr? && name == LENGTH {
      if 1 < |rest| {
        PutIsContainer(Next(x, rest[0], rest[1]), rest[1..], value);
      }
      SaysResized(x, leaf, LengthOf(child).value);
      return;
    }
    SaysAssigned(x, leaf, name, child);
    if 1 < |rest| && Has(Clone(leaf), name) && !(x.Arr? && !name.Index?) {
      SaysAt(x, leaf, name);
      MatchesAfter(Get(x, name), Get(leaf, name), rest[1..], value);
    }
  }

  lemma CloneSays(x: Value, leaf: Value)
    ensures Says(Clone(x), leaf) <==> Says(x, leaf)
  {
    hide MatchesAt;
    assert Clone(Clone(x)) == Clone(x);
  }

  lemma CloneKeeps(x: Value, leaf: Value, rest: Path, value: Value)
    requires rest != []
    ensures KeepsIn(Clone(x), leaf, rest, value) <==> KeepsIn(x, leaf, rest, value)
  {
    hide Find, MatchesAt, Within, LengthOf;
    assert Slot(Clone(x), rest[0]) == Slot(x, rest[0]);
  }

  lemma {:induction false} MatchesAfter(x: Value, leaf: Value, rest: Path, value: Value)
    requires rest != [] && MatchesAt(x, leaf) && Put(Open(x, rest[0]), rest, value).Ok?
    ensures MatchesAt(Put(Open(x, rest[0]), rest, value).value, leaf) <==> KeepsIn(x, leaf, rest, value)
    decreases |rest|, 1
  {
    hide Find, Assign;
    PutIsContainer(Open(x, rest[0]), rest, value);
    if !Empty(leaf) {
      assert Open(x, rest[0]) == Clone(x);
      CloneSays(x, leaf);
      CloneKeeps(x, leaf, rest, value);
      SaysAfter(Clone(x), leaf, rest, value);
    } else if x.Container() {
      EmptyWritten(Clone(x), rest, value);
    }
  }

  /** A write to an empty array leaves it without items if it goes to no index, nor makes it longer. */
  lemma EmptyWritten(x: Value, rest: Path, value: Value)
    requires (x == Obj(map[]) || (x.Arr? && x.items == [])) && rest != [] && Put(x, rest, value).Ok?
    ensures var after, name := Put(x, rest, value).value, Slot(x, rest[0]);
      if x.Obj? then after != x
      else if name == LENGTH then LengthOf(value).Some? && |after.items| == LengthOf(value).value
      else after.items == [] <==> !name.Index?
  {
    var child := if |rest| == 1 then value else Put(Next(x, rest[0], rest[1]), rest[1..], value).value;
    if 1 < |rest| {
      PutIsContainer(Next(x, rest[0], rest[1]), rest[1..], value);
    }
    if x.Obj? {
      assert Slot(x, rest[0]) in Assign(x, Slot(x, rest[0]), child).fields;
    }
  }

  lemma SaysResized(x: Value, leaf: Value, n: nat)
    requires !Empty(leaf) && Says(x, leaf) && x.Arr?
    ensures Says(Arr(Resized(x.items, n), x.own), leaf) <==> Within(leaf, n)
  {
    var after := Arr(Resized(x.items, n), x.own);
    assert forall k :: Has(Clone(x), k) && (k.Index? ==> k.i < n) ==> Has(Clone(after), k) && Get(after, k) == Get(x, k);
  }

  lemma SaysAssigned(x: Value, leaf: Value, name: Name, child: Value)
    requires !Empty(leaf) && Says(x, leaf) && (x.Arr? ==> name != LENGTH)
    ensures Says(Assign(x, name, child), leaf) <==>
              (x.Arr? && !name.Index?) || !Has(Clone(leaf), name) || MatchesAt(child, Get(leaf, name))
  {
    hide MatchesAt;
    var after := Assign(x, name, child);
    assert forall k :: Has(Clone(x), k) ==> Has(Clone(after), k);
    assert forall k :: k != name ==> Get(after, k) == Get(x, k) by {
      forall k | k != name ensures Get(after, k) == Get(x, k) {
        GetOther(x, name, child, k);
      }
    }
  }

  /** Set then get: what a fitting path wrote is what it reads. */
  lemma {:induction false} PutGet(node: Value, path: Path, value: Value)
    requires path != [] && Fits(node, path, value)
    ensures Put(node, path, value).Ok?
    ensures Resolve(Put(node, path, value).value, path) == Ok(value)
    decreases |path|
  {
    hide Find, Assign, Matches, Get, Keeps;
    var e := path[0];
    var written := value;
    if 1 < |path| {
      var next := Next(node, e, path[1]);
      PutGet(next, path[1..], value);
      PutIsContainer(next, path[1..], value);
      written := Put(next, path[1..], value).value;
    }
    StillMatches(node, path, value, written);
    Reaches(node, path, written);
  }

  /** What is written where a template leads matches it exactly if the template is kept. */
  lemma StillMatches(node: Value, path: Path, value: Value, written: Value)
    requires path != []
    requires |path| == 1 ==> written == value
    requires 1 < |path| ==> Put(Next(node, path[0], path[1]), path[1..], value) == Ok(written)
    ensures path[0].Template? && node.Arr? ==> (Matches(written, path[0].fields) <==> Keeps(node, path, value))
  {
    if 1 < |path| && path[0].Template? && node.Arr? {
      KeptExactly(node, path, value);
    }
  }

  // ---- And only when

  lemma {:induction false} FindBeyond(items: seq<Value>, more: seq<Value>, t: map<Name, Value>)
    requires forall item <- items :: !Matches(item, t)
    ensures Find(items + more, t) == |items| + Find(more, t)
  {
    hide Matches;
    if items == [] {
      assert items + more == more;
    } else {
      assert (items + more)[1..] == items[1..] + more;
      FindBeyond(items[1..], more, t);
    }
  }

  lemma AssignSplits(node: Value, i: nat, written: Value)
    requires node.Arr? && i <= |node.items|
    ensures Assign(node, Index(i), written) ==
              Arr((node.items[..i] + [written]) + if i < |node.items| then node.items[i + 1..] else [], node.own)
  {}

  /** With its template broken the path leads on to the items behind. */
  lemma BrokenFinds(node: Value, t: map<Name, Value>, written: Value)
    requires node.Arr? && !Matches(written, t)
    ensures Assign(node, Index(Find(node.items, t)), written).Arr?
    ensures var after, before := Assign(node, Index(Find(node.items, t)), written).items, node.items[..Find(node.items, t)] + [written];
      after == before + Behind(node, t) && Find(after, t) == |before| + Find(Behind(node, t), t)
  {
    hide Matches, Find, Assign;
    var i := Find(node.items, t);
    AssignSplits(node, i, written);
    FindBeyond(node.items[..i] + [written], Behind(node, t), t);
  }

  lemma BrokenReads(node: Value, path: Path, written: Value)
    requires path != [] && node.Arr? && path[0].Template? && !Matches(written, path[0].fields)
    ensures Resolve(Assign(node, Slot(node, path[0]), written), path) == Resolve(Arr(Behind(node, path[0].fields), map[]), path)
  {
    hide Find, Matches, Behind;
    BrokenFinds(node, path[0].fields, written);
  }

  /** Writing to an array by a name that is no integer does not change what is read by it. */
  lemma TextReads(node: Value, path: Path, written: Value)
    requires path != [] && node.Arr? && path[0].Key? && path[0].name.Text?
    ensures Resolve(Assign(node, path[0].name, written), path) == Resolve(node, path)
  {
    assert !Digit("length"[0]);
    hide Digits, LengthOf;
  }

  /** The exact condition, whatever the tree, the path and the value: what is written is read back. */
  lemma {:induction false} PutGetExactly(node: Value, path: Path, value: Value)
    requires path != []
    ensures Put(node, path, value).Ok? && Resolve(Put(node, path, value).value, path) == Ok(value) <==> ReadsBack(node, path, value)
    decreases |path|
  {
    hide Find, Matches, Keeps, Behind, Assign, LengthOf, ParseInt;
    var e := path[0];
    WritableExactly(node, path, value);
    var written := value;
    if 1 < |path| {
      var next := Next(node, e, path[1]);
      PutGetExactly(next, path[1..], value);
      if Put(next, path[1..], value).Ok? {
        PutIsContainer(next, path[1..], value);
        written := Put(next, path[1..], value).value;
      }
    }
    if Put(node, path, value).Ok? && (node.Arr? ==> e.Template? || !e.name.Text?) {
      StillMatches(node, path, value, written);
      if e.Template? && node.Arr? && !Matches(written, e.fields) {
        BrokenReads(node, path, written);
      } else if e.Template? ==> node.Arr? {
        Reaches(node, path, written);
      } else {
        GetAssigned(node, Slot(node, e), written);
      }
    } else if Put(node, path, value).Ok? {
      TextReads(node, path, written);
    }
  }

  // ---- Setting twice, and setting what is there

  lemma AssignTwice(node: Value, name: Name, a: Value, b: Value)
    requires node.Container() && (node.Arr? ==> name.Index?)
    ensures Assign(Assign(node, name, a), name, b) == Assign(node, name, b)
  {}

  predicate NoOwn(node: Value) {
    node.Arr? ==> node.own == map[]
  }

  lemma NoneOwned(node: Value, path: Path, value: Value)
    requires path != [] && Fits(node, path, value) && NoOwn(node) && Put(node, path, value).Ok?
    ensures NoOwn(Put(node, path, value).value)
  {}

  /** The second of two writes to a path is the only one that shows. */
  lemma {:induction false} PutPut(node: Value, path: Path, a: Value, b: Value)
    requires path != [] && Fits(node, path, a)
    ensures Put(node, path, a).Ok?
    ensures Put(Put(node, path, a).value, path, b) == Put(node, path, b)
    decreases |path|
  {
    hide Find, Assign, Matches, Get, Keeps, Resolve, LengthOf;
    var e := path[0];
    PutGet(node, path, a);
    var first := a;
    if 1 < |path| {
      var next := Next(node, e, path[1]);
      PutPut(next, path[1..], a, b);
      PutIsContainer(next, path[1..], a);
      first := Put(next, path[1..], a).value;
      NoneOwned(next, path[1..], a);
    }
    StillMatches(node, path, a, first);
    Reaches(node, path, first);
    var second := if |path| == 1 then Ok(b) else Put(Next(node, e, path[1]), path[1..], b);
    if second.Ok? {
      AssignTwice(node, Slot(node, e), first, second.value);
    }
  }

  /** Writing the defined value a path already reads leaves the tree as it was, but for what arrays own, or is not possible. */
  lemma {:induction false} GetPut(node: Value, path: Path, value: Value)
    requires path != [] && value != Undefined
    requires Resolve(node, path).Ok? && Same(Resolve(node, path).value, value)
    ensures var after := Put(Clone(node), path, value); after.Ok? ==> Same(after.value, node)
    decreases |path|
  {
    hide Matches, Find, Bare, Assign, LengthOf;
    var slot := Slot(node, path[0]);
    if Put(Clone(node), path, value).Ok? {
      if node.Arr? && !slot.Index? {
        assert !Digit("length"[0]);
        OwnedAssigned(node, slot, if |path| == 1 then value else Put(Next(Clone(node), path[0], path[1]), path[1..], value).value);
        return;
      }
      var child := Get(node, slot);
      if |path| == 1 {
        SameAssigned(node, slot, value);
      } else {
        GetPut(child, path[1..], value);
        SameAssigned(node, slot, Put(Clone(child), path[1..], value).value);
      }
    }
  }

  lemma OwnedAssigned(node: Value, name: Name, value: Value)
    requires node.Arr? && Owned(name)
    ensures Same(Assign(Clone(node), name, value), node)
  {}

  lemma SameAssigned(node: Value, name: Name, value: Value)
    requires node.Container() && (node.Arr? ==> name.Index?)
    requires Get(node, name) != Undefined && Same(Get(node, name), value)
    ensures Same(Assign(Clone(node), name, value), node)
  {}

  /**
   * For a defined value setIfChanged gives the tree that set gives, unless one of them throws, or a name on the path has
   * a dot.
   */
  lemma SetIfChangedIsSet(state: Value, path: Path, value: Value)
    requires path != [] && value != Undefined && !Dotted(path)
    requires SetIfChanged(state, path, value).Ok? && Set(state, path, value).Ok?
    ensures Same(SetIfChanged(state, path, value).value, Set(state, path, value).value)
  {
    SplitUndotted(path);
    if Same(Resolve(state, path).value, value) {
      GetPut(state, path, value);
    }
  }

  /**
   * Writing the value would not change the tree: every place on the path is there, and the last one holds the value.
   * Arrays must own nothing that cloning them would lose, but for what the write itself makes.
   */
  predicate Rewrites(x: Value, path: Path, value: Value)
    requires path != []
    decreases |path|
  {
    x.Container() &&
    var slot := Slot(x, path[0]);
    var child := Get(x, slot);
    if x.Arr? && slot == LENGTH then |path| == 1 && LengthOf(value) == Some(|x.items|) && NoOwn(x)
    else if x.Arr? && !slot.Index? then
      && x.own.Keys == {slot}
      && if |path| == 1 then child == value else Put(Open(Undefined, path[1]), path[1..], value) == Ok(child)
    else
      && NoOwn(x) && Has(x, slot)
      && if |path| == 1 then child == value
         else (path[0].Template? ==> x.Arr?) && child.Container() && Rewrites(child, path[1..], value)
  }

  lemma AssignDiffers(x: Value, name: Name, value: Value)
    requires x.Container() && (x.Arr? ==> name != LENGTH)
    ensures Assign(Clone(x), name, value) == x <==>
            Has(x, name) && Get(x, name) == value && (x.Arr? ==> x.own.Keys == if name.Index? then {} else {name})
  {
    GetAssigned(Clone(x), name, value);
    if Assign(Clone(x), name, value) == x {
      assert Has(Assign(Clone(x), name, value), name);
    }
  }

  lemma LengthKept(x: Value, value: Value)
    requires x.Arr? && LengthOf(value).Some?
    ensures Assign(Clone(x), LENGTH, value) == x <==> LengthOf(value).value == |x.items| && NoOwn(x)
  {}

  lemma {:induction false} RewritesExactly(x: Value, path: Path, value: Value)
    requires path != []
    ensures Put(Clone(x), path, value) == Ok(x) <==> Rewrites(x, path, value)
    decreases |path|
  {
    hide Find, Matches, Assign, LengthOf;
    if x.Container() {
      var slot := Slot(x, path[0]);
      if x.Arr? && slot == LENGTH {
        if LengthOf(value).Some? {
          LengthKept(x, value);
        }
        if 1 < |path| && Put(Next(Clone(x), path[0], path[1]), path[1..], value).Ok? {
          PutIsContainer(Next(Clone(x), path[0], path[1]), path[1..], value);
        }
      } else if |path| == 1 {
        AssignDiffers(x, slot, value);
      } else if path[0].Template? ==> x.Arr? {
        var next := Next(Clone(x), path[0], path[1]);
        RewritesExactly(Get(x, slot), path[1..], value);
        var child := Put(next, path[1..], value);
        if child.Ok? {
          PutIsContainer(next, path[1..], value);
          AssignDiffers(x, slot, child.value);
        }
      }
    }
  }

  /**
   * Exactly when setIfChanged gives the tree that set gives, for every value: what the path reads as the value once its
   * names are split must be in the place that the path itself writes, and a path that then cannot be read must not be
   * writable.
   */
  lemma SetIfChangedExactly(state: Value, path: Path, value: Value)
    requires path != []
    ensures SetIfChanged(state, path, value) == Set(state, path, value) <==>
            match Resolve(state, Split(path))
            case Ok(found) => Same(found, value) ==> Rewrites(state, path, value)
            case Throws => !Writable(Open(state, path[0]), path, value)
  {
    var root := Open(state, path[0]);
    RewritesExactly(state, path, value);
    WritableExactly(root, path, value);
    if Put(root, path, value).Ok? {
      PutIsContainer(root, path, value);
    }
  }

  /** An undefined value can read as there without being there: set creates the path. */
  lemma UndefinedDiffers()
    ensures SetIfChanged(Obj(map[]), [Key(Text("a")), Key(Text("b"))], Undefined) == Ok(Obj(map[]))
    ensures Set(Obj(map[]), [Key(Text("a")), Key(Text("b"))], Undefined) ==
              Ok(Obj(map[Text("a") := Obj(map[Text("b") := Undefined])]))
  {
    assert Put(Obj(map[]), [Key(Text("b"))], Undefined) == Ok(Obj(map[Text("b") := Undefined]));
    assert [Key(Text("a")), Key(Text("b"))][1..] == [Key(Text("b"))];
  }

  /** A name that is no number cannot be read from an array, but can be written to one. */
  lemma ArrayNameDiffers(value: Value)
    ensures SetIfChanged(Arr([], map[]), [Key(Text("abc"))], value) == Throws
    ensures Set(Arr([], map[]), [Key(Text("abc"))], value) == Ok(Arr([], map[Text("abc") := value]))
  {
    assert !Digit("abc"[0]);
  }

  lemma {:induction false} NoDotWhole(part: string, s: string)
    requires '.' !in part && '.' !in s
    ensures SplitFrom(part, s) == [part + s]
    decreases |s|
  {
    if s == [] {
      assert part + s == part;
    } else {
      NoDotWhole(part + [s[0]], s[1..]);
      assert (part + [s[0]]) + s[1..] == part + s;
    }
  }

  lemma {:induction false} SplitsAt(part: string, a: string, b: string)
    requires '.' !in part && '.' !in a && '.' !in b
    ensures SplitFrom(part, a + "." + b) == [part + a, b]
    decreases |a|
  {
    var s := a + "." + b;
    if a == [] {
      assert s[0] == '.' && s[1..] == b && part + a == part;
      NoDotWhole("", b);
      assert "" + b == b;
    } else {
      assert s[0] == a[0] && s[1..] == a[1..] + "." + b;
      SplitsAt(part + [a[0]], a[1..], b);
      assert (part + [a[0]]) + a[1..] == part + a;
    }
  }

  /** Two names joined by a dot are taken apart again. */
  lemma SplitsAtDot(a: string, b: string)
    requires '.' !in a && '.' !in b
    ensures SplitDots(a + "." + b) == [a, b]
  {
    SplitsAt("", a, b);
    assert "" + a == a;
  }

  lemma NamedText(s: string)
    requires s != [] && !Digit(s[0]) && s[0] != '-'
    ensures Named(s) == Text(s)
  {}

  lemma DottedPathSplits()
    ensures Split([Key(Text("a.b"))]) == [Key(Text("a")), Key(Text("b"))]
  {
    hide SplitDots, Named;
    var path := [Key(Text("a.b"))];
    SplitsAtDot("a", "b");
    assert "a" + "." + "b" == "a.b" && "a.b"[1] == '.';
    NamedText("a");
    NamedText("b");
    assert Keys(["a", "b"]) == [Key(Text("a")), Key(Text("b"))];
    assert path[1..] == [] && Split(path) == Keys(["a", "b"]) + Split([]);
  }

  /** A name with a dot is read as two names: a value elsewhere can pass for the one that set would write. */
  lemma DottedNameDiffers(value: Value)
    ensures var state, path := Obj(map[Text("a") := Obj(map[Text("b") := value])]), [Key(Text("a.b"))];
      && SetIfChanged(state, path, value) == Ok(state)
      && Set(state, path, value) == Ok(Obj(state.fields[Text("a.b") := value]))
  {
    DottedPathSplits();
    hide Split;
    assert [Key(Text("a")), Key(Text("b"))][1..] == [Key(Text("b"))];
  }

  /** And the value can be in its place without being found there. */
  lemma DottedNameMissed(value: Value)
    requires value != Undefined
    ensures var state, path := Obj(map[Text("a.b") := value]), [Key(Text("a.b"))];
      Resolve(state, path) == Ok(value) && Resolve(state, Split(path)) == Ok(Undefined)
  {
    DottedPathSplits();
    hide Split;
    assert [Key(Text("a")), Key(Text("b"))][1..] == [Key(Text("b"))];
  }

  /** A negative integer names a property of the array itself, which is written and read like any other. */
  lemma NegativeNameReads(value: Value)
    ensures var after := Set(Arr([], map[]), [Key(Minus(1))], value);
      after == Ok(Arr([], map[Minus(1) := value])) && Resolve(after.value, [Key(Minus(1))]) == Ok(value)
  {}

  /** Writing a length to an array cuts it, or fills it up with undefined items, and fails for what is no length. */
  lemma LengthSet(items: seq<Value>, own: map<Name, Value>, n: real)
    ensures var after := Put(Arr(items, own), [Key(LENGTH)], Num(n));
      && (after.Ok? <==> 0.0 <= n < 4294967296.0 && n == n.Floor as real)
      && (after.Ok? ==>
            && after.value.Arr? && after.value.own == own && |after.value.items| == n.Floor
            && forall i :: 0 <= i < n.Floor ==> after.value.items[i] == if i < |items| then items[i] else Undefined)
  {}

  /** Null, booleans and digits are lengths too. */
  lemma LengthsRead(node: Value, n: nat)
    requires node.Arr? && n < 4294967296
    ensures Put(node, [Key(LENGTH)], Null) == Put(node, [Key(LENGTH)], Num(0.0))
    ensures Put(node, [Key(LENGTH)], Bool(false)) == Put(node, [Key(LENGTH)], Num(0.0))
    ensures Put(node, [Key(LENGTH)], Bool(true)) == Put(node, [Key(LENGTH)], Num(1.0))
    ensures Put(node, [Key(LENGTH)], Str("")) == Put(node, [Key(LENGTH)], Num(0.0))
    ensures Put(node, [Key(LENGTH)], Str(Decimal(n))) == Put(node, [Key(LENGTH)], Num(n as real))
    ensures Put(node, [Key(LENGTH)], Undefined) == Throws
  {
    DecimalReads(n);
    hide Decimal;
  }

  /** Writing the length of an array changes what its indices read. */
  lemma LengthCuts(value: Value)
    ensures Set(Arr([value], map[]), [Key(LENGTH)], Num(0.0)) == Ok(Arr([], map[]))
  {}

  /** A template set inside an object has no place there: the value ends up under the name "undefined". */
  lemma TemplateInObject(value: Value)
    ensures Set(Obj(map[]), [Template(map[Text("id") := Num(1.0)])], value) == Ok(Obj(map[Text("undefined") := value]))
    ensures Resolve(Obj(map[Text("undefined") := value]), [Template(map[Text("id") := Num(1.0)])]) == Ok(Undefined)
  {}

  // ---- Paths that part

  /** No item matches both templates: they disagree on a leaf. */
  predicate Clash(a: map<Name, Value>, b: map<Name, Value>) {
    exists k <- a :: k in b && ClashAt(a[k], b[k])
  }

  predicate ClashAt(x: Value, y: Value)
    decreases x
  {
    if Empty(x) || Empty(y) then !(Empty(x) && Empty(y)) || if x.Arr? then !y.Arr? else x != y
    else if x.Obj? && y.Obj? then exists k <- x.fields :: k in y.fields && ClashAt(x.fields[k], y.fields[k])
    else if x.Arr? && y.Arr? then exists i | 0 <= i < |x.items| && i < |y.items| :: ClashAt(x.items[i], y.items[i])
    else false
  }

  lemma {:induction false} NoneMatchesBoth(item: Value, a: map<Name, Value>, b: map<Name, Value>)
    requires Clash(a, b) && Matches(item, a)
    ensures !Matches(item, b)
  {
    var k :| k in a && k in b && ClashAt(a[k], b[k]);
    NoneMatchesBothAt(Get(item, k), a[k], b[k]);
  }

  lemma {:induction false} NoneMatchesBothAt(x: Value, a: Value, b: Value)
    requires ClashAt(a, b) && MatchesAt(x, a)
    ensures !MatchesAt(x, b)
    decreases a
  {
    if Empty(a) || Empty(b) {
    } else if a.Obj? {
      var k :| k in a.fields && k in b.fields && ClashAt(a.fields[k], b.fields[k]);
      NoneMatchesBothAt(Get(x, k), a.fields[k], b.fields[k]);
    } else {
      var i :| 0 <= i < |a.items| && i < |b.items| && ClashAt(a.items[i], b.items[i]);
      NoneMatchesBothAt(Get(x, Index(i)), a.items[i], b.items[i]);
    }
  }

  /** What is written at rest does not make an item match the template that did not match it before. */
  predicate MakesNoMatch(t: map<Name, Value>, rest: Path, value: Value) {
    t != map[] &&
    if rest == [] then !Matches(value, t)
    else rest[0].Key? && rest[0].name !in t && (Owned(rest[0].name) || forall k <- t :: !k.Index?)
  }

  /** A name under which an array has no item and not its length. */
  predicate Owned(name: Name) {
    !name.Index? && name != LENGTH
  }

  /** Two elements that lead to different places of a node, whatever the first of them writes there. */
  predicate Parts(node: Value, p: Path, q: Element, value: Value)
    requires p != []
  {
    match (p[0], q)
    case (Key(a), Key(b)) => a != b && (node.Arr? ==> a != LENGTH && (a.Text? || !b.Text?))
    case (Template(a), Template(b)) => !node.Arr? || (Clash(a, b) && Keeps(node, p, value))
    case (Template(a), Key(b)) => if node.Arr? then !b.Text? && b != Index(Find(node.items, a)) else b != Text("undefined")
    case (Key(a), Template(b)) =>
      || !node.Arr? || Owned(a)
      || (a.Index? && Find(node.items, b) < a.i && Find(node.items, b) < |node.items|)
      || (a.Index? && (Find(node.items, b) != a.i || a.i == |node.items|) && MakesNoMatch(b, p[1..], value))
  }

  /**
   * After a common beginning, in which arrays are addressed by indices or templates, the paths part: by two names, by
   * templates that no item matches both of, or by an index and a template that come to different positions. A template
   * that nothing matches becomes an item, so the other path must not read what the template itself says. And no array
   * in common owns what cloning it would lose.
   */
  predicate Apart(node: Value, p: Path, q: Path, value: Value)
    requires p != [] && q != []
    decreases |p|
  {
    Parts(node, p, q[0], value) ||
    (&& p[0] == q[0] && 1 < |p| && 1 < |q|
     && (node.Arr? && p[0].Key? ==> p[0].name.Index?) && NoOwn(Get(node, Slot(node, p[0])))
     && (p[0].Template? ==>
           && node.Arr? && Keeps(node, p, value)
           && (Find(node.items, p[0].fields) < |node.items| || Resolve(Obj(p[0].fields), q[1..]) == Ok(Undefined)))
     && Apart(Next(node, p[0], p[1]), p[1..], q[1..], value))
  }

  lemma OpenAside(x: Value, p: Path, q: Path, value: Value)
    requires p != [] && q != [] && Apart(Open(x, p[0]), p, q, value) && NoOwn(x)
    ensures Resolve(Open(x, p[0]), q) == Resolve(x, q)
  {}

  /** Writing an item that does not match, where none matched, or behind the first that does, finds the same item. */
  lemma FindAside(node: Value, i: nat, item: Value, t: map<Name, Value>)
    requires node.Arr?
    requires (Find(node.items, t) < i && Find(node.items, t) < |node.items|)
             || ((Find(node.items, t) != i || i == |node.items|) && t != map[] && !Matches(item, t))
    ensures var f, after := Find(node.items, t), Assign(node, Index(i), item);
      && after.Arr?
      && (f < |node.items| ==> Find(after.items, t) == f && f < |after.items| && after.items[f] == node.items[f])
      && (f == |node.items| ==> Find(after.items, t) == |after.items|)
  {
    var f, items := Find(node.items, t), Assign(node, Index(i), item).items;
    assert forall j :: 0 <= j < |items| && j != i && j < |node.items| ==> items[j] == node.items[j];
    assert forall j :: |node.items| <= j < |items| && j != i ==> items[j] == Undefined;
    if f < |node.items| {
      assert items[f] == node.items[f] && Matches(items[f], t);
    }
  }

  /** What is left of an array where one element writes and another, a template, reads. */
  lemma PartedItems(node: Value, p: Path, b: map<Name, Value>, value: Value, written: Value)
    requires p != [] && node.Arr? && Parts(node, p, Template(b), value)
    requires p[0].Template? ==> Matches(written, p[0].fields)
    requires p[0].Key? ==>
               Owned(p[0].name) || !Matches(written, b)
               || (p[0].name.Index? && Find(node.items, b) < p[0].name.i && Find(node.items, b) < |node.items|)
    ensures var f, after := Find(node.items, b), Assign(node, Slot(node, p[0]), written);
      && after.Arr?
      && (f < |node.items| ==> Find(after.items, b) == f && f < |after.items| && after.items[f] == node.items[f])
      && (f == |node.items| ==> Find(after.items, b) == |after.items|)
  {
    hide MatchesAt, Find, Keeps, Says;
    if p[0].Template? {
      var i := Find(node.items, p[0].fields);
      NoneMatchesBoth(written, p[0].fields, b);
      if i < |node.items| {
        NoneMatchesBoth(node.items[i], p[0].fields, b);
      }
      FindAside(node, i, written, b);
    } else if p[0].name.Index? {
      FindAside(node, p[0].name.i, written, b);
    }
  }

  /** A write through one of two elements that part does not change what the other reads. */
  lemma PartedReads(node: Value, p: Path, q: Path, value: Value, written: Value)
    requires p != [] && q != [] && node.Container() && Parts(node, p, q[0], value)
    requires p[0].Template? && node.Obj? ==> |p| == 1
    requires node.Arr? && p[0].Template? && q[0].Template? ==> Matches(written, p[0].fields)
    requires node.Arr? && p[0].Key? && q[0].Template? ==>
               Owned(p[0].name) || !Matches(written, q[0].fields)
               || (p[0].name.Index? && Find(node.items, q[0].fields) < p[0].name.i && Find(node.items, q[0].fields) < |node.items|)
    ensures Resolve(Assign(node, Slot(node, p[0]), written), q) == Resolve(node, q)
  {
    hide Matches, Find, Clash, Keeps, MakesNoMatch;
    var after := Assign(node, Slot(node, p[0]), written);
    if node.Arr? && q[0].Template? {
      PartedItems(node, p, q[0].fields, value, written);
      hide Assign, Parts;
    } else if q[0].Key? {
      GetOther(node, Slot(node, p[0]), written, q[0].name);
    }
  }

  lemma StillNoMatch(x: Value, t: map<Name, Value>, path: Path, value: Value)
    requires path != [] && t != map[] && !Matches(x, t) && path[0].Key? && path[0].name !in t
    requires Owned(path[0].name) || forall k <- t :: !k.Index?
    requires Put(Open(x, path[0]), path, value).Ok?
    ensures !Matches(Put(Open(x, path[0]), path, value).value, t)
  {
    var node := Open(x, path[0]);
    PutIsContainer(node, path, value);
    if node.Obj? {
      var after := Put(node, path, value).value;
      assert forall k <- t :: (k in after.fields <==> k in node.fields) && (k in node.fields ==> after.fields[k] == node.fields[k]);
    }
  }

  /** What the write leaves at the element it parts by. */
  lemma WrittenAt(node: Value, p: Path, q: Element, value: Value, written: Value)
    requires p != [] && Put(node, p, value).Ok? && Parts(node, p, q, value)
    requires written == if |p| == 1 then value else Put(Next(node, p[0], p[1]), p[1..], value).value
    ensures p[0].Template? && node.Obj? ==> |p| == 1
    ensures node.Arr? && p[0].Template? && q.Template? ==> Matches(written, p[0].fields)
    ensures node.Arr? && p[0].Key? && q.Template? ==>
              Owned(p[0].name) || !Matches(written, q.fields)
              || (p[0].name.Index? && Find(node.items, q.fields) < p[0].name.i && Find(node.items, q.fields) < |node.items|)
  {
    if node.Arr? && q.Template? && 1 < |p| {
      if p[0].Template? {
        KeptExactly(node, p, value);
      } else if p[0].name.Index? && MakesNoMatch(q.fields, p[1..], value)
                && (p[0].name.i < Find(node.items, q.fields) || |node.items| <= p[0].name.i) {
        StillNoMatch(Get(node, p[0].name), q.fields, p[1..], value);
      }
    }
  }

  /** A write does not change what a path that parts from it reads. */
  lemma {:induction false} PutAside(node: Value, p: Path, q: Path, value: Value)
    requires p != [] && q != [] && Apart(node, p, q, value) && Put(node, p, value).Ok?
    ensures Resolve(Put(node, p, value).value, q) == Resolve(node, q)
    decreases |p|
  {
    hide Find, Matches, Keeps, Parts;
    var e := p[0];
    if Parts(node, p, q[0], value) {
      var written := if |p| == 1 then value else Put(Next(node, e, p[1]), p[1..], value).value;
      WrittenAt(node, p, q[0], value, written);
      PartedReads(node, p, q, value, written);
    } else {
      var next := Next(node, e, p[1]);
      PutAside(next, p[1..], q[1..], value);
      if next == Open(Get(node, Slot(node, e)), p[1]) {
        OpenAside(Get(node, Slot(node, e)), p[1..], q[1..], value);
      }
      PutIsContainer(next, p[1..], value);
      var child := Put(next, p[1..], value).value;
      StillMatches(node, p, value, child);
      Reaches(node, q, child);
    }
  }

  /** Writing below one tab of a list does not change what is read of another, listed or not. */
  lemma TabsApart(tabs: Value, key: Name, a: string, b: string, below: Path, read: Path, value: Value)
    requires a != b && below != [] && below[0].Key? && below[0].name != key && !key.Index?
    ensures var p, q := [Template(map[key := Str(a)])] + below, [Template(map[key := Str(b)])] + read;
      Put(tabs, p, value).Ok? ==> Resolve(Put(tabs, p, value).value, q) == Resolve(tabs, q)
  {
    var ta, tb := map[key := Str(a)], map[key := Str(b)];
    var p, q := [Template(ta)] + below, [Template(tb)] + read;
    assert Clash(ta, tb) by {
      assert key in ta && ClashAt(ta[key], tb[key]);
    }
    assert p[1..] == below;
    if tabs.Arr? {
      var item := Next(tabs, p[0], p[1]);
      assert Matches(Obj(ta), ta) && Matches(item, ta);
      assert item.Obj? && !Has(Clone(Obj(ta)), Slot(item, below[0]));
    }
    assert Parts(tabs, p, q[0], value);
    if Put(tabs, p, value).Ok? {
      PutAside(tabs, p, q, value);
    }
  }

  // ---- What a write creates

  /** A scalar in the way stops a write, unless it is one of the five that count as nothing. */
  lemma ScalarInTheWay(k: Name, x: Value, below: string, value: Value)
    requires !x.Container()
    ensures Put(Obj(map[k := x]), [Key(k), Key(Text(below))], value) ==
              if x in {Undefined, Null, Bool(false), Num(0.0), Str("")} then Ok(Obj(map[k := Obj(map[Text(below) := value])]))
              else Throws
  {
    var path := [Key(k), Key(Text(below))];
    var child := Obj(map[Text(below) := value]);
    assert path[1..] == [Key(Text(below))] && map[k := x][k := child] == map[k := child];
    assert Put(Obj(map[]), path[1..], value) == Ok(child);
    assert Next(Obj(map[k := x]), path[0], path[1]) == Open(x, path[1]);
  }

  /** A missing child becomes an array for an index or a template and an object for a name; a falsy one always an object. */
  lemma CreatedContainer(node: Value, path: Path, value: Value)
    requires 2 <= |path| && path[0].Key? && (node.Arr? ==> path[0].name.Index?)
    requires Get(node, path[0].name) in {Undefined, Null, Bool(false), Num(0.0), Str("")} && Put(node, path, value).Ok?
    ensures var child := Get(Put(node, path, value).value, path[0].name);
      if Get(node, path[0].name) == Undefined && (path[1].Template? || path[1].name.Index?) then child.Arr? else child.Obj?
  {
    var next := Next(node, path[0], path[1]);
    PutIsContainer(next, path[1..], value);
    GetAssigned(node, path[0].name, Put(next, path[1..], value).value);
  }

  /**
   * A template whose leaves nothing in the list has is appended, matching itself still if it is kept; the other items
   * stay.
   */
  lemma AppendedItem(node: Value, path: Path, value: Value)
    requires path != [] && node.Arr? && path[0].Template?
    requires forall item <- node.items :: !Picked(item, path[0].fields)
    ensures Resolve(node, [path[0]]) == Ok(Undefined)
    ensures var written := if |path| == 1 then Ok(value) else Put(Obj(path[0].fields), path[1..], value);
      && Put(node, path, value) == (if written.Ok? then Ok(Arr(node.items + [written.value], node.own)) else Throws)
      && (1 < |path| && written.Ok? ==> (Matches(written.value, path[0].fields) <==> Keeps(node, path, value)))
  {
    hide Find, Matches, Keeps, Picked, LengthOf;
    NoneFound(node.items, path[0].fields);
    assert node.items[..|node.items|] == node.items;
    if 1 < |path| && Put(Obj(path[0].fields), path[1..], value).Ok? {
      KeptExactly(node, path, value);
    }
  }

  /**
   * The first item that has every leaf of the template is the one that is read and written; nothing else of the list
   * changes.
   */
  lemma FoundItem(node: Value, i: nat, path: Path, value: Value)
    requires path != [] && node.Arr? && path[0].Template? && i < |node.items|
    requires Picked(node.items[i], path[0].fields) && forall j :: 0 <= j < i ==> !Picked(node.items[j], path[0].fields)
    ensures Resolve(node, [path[0]]) == Ok(if node.items[i].Falsy() then Undefined else node.items[i])
    ensures var written := if |path| == 1 then Ok(value) else Put(Open(node.items[i], path[1]), path[1..], value);
      Put(node, path, value) == if written.Ok? then Ok(Arr(node.items[i := written.value], node.own)) else Throws
  {
    hide Find, Matches, Picked, LengthOf;
    FirstFound(node.items, path[0].fields, i);
    assert Slot(node, path[0]) == Index(i);
    assert 1 < |path| ==> Next(node, path[0], path[1]) == Open(node.items[i], path[1]);
  }

  lemma FirstFound(items: seq<Value>, t: map<Name, Value>, i: nat)
    requires i < |items| && Picked(items[i], t) && forall j :: 0 <= j < i ==> !Picked(items[j], t)
    ensures Find(items, t) == i
  {
    hide Matches, Picked;
    MatchesPicked(items[i], t);
    forall j | 0 <= j < i ensures !Matches(items[j], t) {
      MatchesPicked(items[j], t);
    }
  }

  lemma NoneFound(items: seq<Value>, t: map<Name, Value>)
    requires forall item <- items :: !Picked(item, t)
    ensures Find(items, t) == |items|
  {
    hide Matches, Picked;
    forall item <- items ensures !Matches(item, t) {
      MatchesPicked(item, t);
    }
  }

  /** A leaf of an object that is not empty lies below one of its names. */
  lemma LeafBelow(v: Value, names: seq<Name>)
    requires !Empty(v) && v.Obj?
    ensures LeafAt(v, names) <==> names != [] && names[0] in v.fields && LeafAt(v.fields[names[0]], names[1..])
  {}

  lemma PicksField(fields: map<Name, Value>, v: Value, names: seq<Name>)
    requires v.Obj? && names != []
    ensures names[0] in v.fields ==>
              (Picks(Obj(fields), v, names) <==>
               names[0] in fields && Picks(fields[names[0]], v.fields[names[0]], names[1..]))
  {}

  lemma ScalarLeaf(v: Value, names: seq<Name>)
    requires !v.Container()
    ensures LeafAt(v, names) <==> names == []
  {}

  /** A template of scalars is found in the objects that have every one of its names with its value. */
  lemma ScalarsPicked(fields: map<Name, Value>, t: map<Name, Value>)
    requires forall k <- t :: !t[k].Container()
    ensures Picked(Obj(fields), t) <==> forall k <- t :: k in fields && fields[k] == t[k]
  {
    if t != map[] {
      assert !Empty(Obj(t));
      forall k <- t ensures LeafAt(Obj(t), [k]) && (Picks(Obj(fields), Obj(t), [k]) <==> k in fields && fields[k] == t[k]) {
        assert [k][1..] == [];
        LeafBelow(Obj(t), [k]);
        ScalarLeaf(t[k], []);
        PicksField(fields, Obj(t), [k]);
      }
      forall names | LeafAt(Obj(t), names) ensures names != [] && names[0] in t && names == [names[0]] {
        LeafBelow(Obj(t), names);
        ScalarLeaf(t[names[0]], names[1..]);
      }
      hide LeafAt, Picks;
    }
  }

  /** And so is a template of one name and, below it, one more, by what the two names lead to. */
  lemma NestedPicked(fields: map<Name, Value>, outer: Name, inner: Name, leaf: Value)
    requires !leaf.Container() && !inner.Index?
    ensures Picked(Obj(fields), map[outer := Obj(map[inner := leaf])]) <==>
            outer in fields && fields[outer].Obj? && inner in fields[outer].fields && fields[outer].fields[inner] == leaf
  {
    var below := Obj(map[inner := leaf]);
    var t := map[outer := below];
    var names := [outer, inner];
    assert names[1..] == [inner] && [inner][1..] == [];
    assert inner in below.fields && outer in t && !Empty(below) && !Empty(Obj(t));
    LeafBelow(Obj(t), names);
    LeafBelow(below, [inner]);
    ScalarLeaf(leaf, []);
    forall other | LeafAt(Obj(t), other) ensures other == names {
      LeafBelow(Obj(t), other);
      LeafBelow(below, other[1..]);
      ScalarLeaf(leaf, other[1..][1..]);
      assert other == [other[0]] + ([other[1..][0]] + other[1..][1..]);
    }
    PicksField(fields, Obj(t), names);
    if outer in fields && fields[outer].Obj? {
      PicksField(fields[outer].fields, below, [inner]);
    }
    assert IndexFree(below);
    assert Picked(Obj(fields), t) <==> Picks(Obj(fields), Obj(t), names);
  }

  /** The item with the id is the one whose property is set, wherever it is in the list. */
  lemma KnownIdUpdates(items: seq<Value>, i: nat, id: Value, name: Name, value: Value)
    requires i < |items| && forall item <- items :: item.Obj?
    requires !id.Container() && ID in items[i].fields && items[i].fields[ID] == id
    requires forall j :: 0 <= j < i ==> ID in items[j].fields ==> items[j].fields[ID] != id
    ensures Set(Arr(items, map[]), [Template(map[ID := id]), Key(name)], value) ==
              Ok(Arr(items[i := Obj(items[i].fields[name := value])], map[]))
  {
    var path := [Template(map[ID := id]), Key(name)];
    forall j | 0 <= j <= i ensures Picked(items[j], map[ID := id]) <==> ID in items[j].fields && items[j].fields[ID] == id {
      ScalarsPicked(items[j].fields, map[ID := id]);
    }
    FoundItem(Arr(items, map[]), i, path, value);
    assert path[1..] == [Key(name)];
    hide Picked, Find, Matches;
    assert items[i] in items && Open(items[i], path[1]) == items[i];
    assert Put(items[i], path[1..], value) == Ok(Obj(items[i].fields[name := value]));
    assert Open(Arr(items, map[]), path[0]) == Arr(items, map[]);
  }

  // ---- The laws on whole states

  /** For every state, path and value: what is set is read back if and only if the condition above holds. */
  lemma SetGetExactly(state: Value, path: Path, value: Value)
    requires path != []
    ensures Set(state, path, value).Ok? && Resolve(Set(state, path, value).value, path) == Ok(value)
            <==> ReadsBack(Open(state, path[0]), path, value)
  {
    PutGetExactly(Open(state, path[0]), path, value);
  }

  lemma SetSet(state: Value, path: Path, a: Value, b: Value)
    requires path != [] && Fits(Open(state, path[0]), path, a)
    ensures Set(state, path, a).Ok? && Set(Set(state, path, a).value, path, b) == Set(state, path, b)
  {
    hide Find, Matches, Assign, Keeps, Fits, Put;
    var root := Open(state, path[0]);
    PutPut(root, path, a, b);
    PutIsContainer(root, path, a);
    NoneOwned(root, path, a);
  }

  lemma SetAside(state: Value, p: Path, q: Path, value: Value)
    requires p != [] && q != [] && NoOwn(state) && Apart(Open(state, p[0]), p, q, value) && Set(state, p, value).Ok?
    ensures Resolve(Set(state, p, value).value, q) == Resolve(state, q)
  {
    PutAside(Open(state, p[0]), p, q, value);
    OpenAside(state, p, q, value);
  }
}
