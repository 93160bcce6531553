/**
 * The bot's YAML configuration: bringing an outdated config file up to the version of
 * its template by overlaying the user's values onto the template, and reading a
 * configured colour as a number.
 *
 * A loaded YAML document is a `Tree`: a mapping (anything with `keys`) is a `Node`,
 * everything else (scalars and lists) is a `Leaf`. Reading and writing the files is
 * outside the model.
 */
module Config {
  import opened Outcomes

  /** A YAML value without `keys`. The merge copies such values whole, so anything the
      model does not look inside (a float, a timestamp, a list holding mappings) is an
      `Opaque` value. */
  datatype Scalar = Int(i: int) | Str(s: string) | Bool(b: bool) | Null | List(items: seq<Scalar>) | Opaque(text: string)

  datatype Tree = Leaf(value: Scalar) | Node(kids: map<string, Tree>)

  /** The value at a path of keys, or None when some key is missing or a leaf is reached
      before the path ends. */
  function Get(t: Tree, path: seq<string>): Option<Tree>
    decreases path
  {
    if path == [] then Some(t)
    else match t
      case Leaf(_) => None
      case Node(kids) => if path[0] in kids then Get(kids[path[0]], path[1..]) else None
  }

  // ---------------------------------------------------------------------------
  // The recursive overlay
  // ---------------------------------------------------------------------------

  /**
   * Writes `over` onto `base` the way the nested merge does. A leaf of `over` replaces
   * whatever is at its key (adding the key if needed); a mapping of `over` is merged into
   * the mapping at the same key of `base`. It fails (None) where the merge raises: a
   * mapping of `over` under a key `base` lacks (KeyError), or a non-empty mapping of
   * `over` against a leaf of `base` (item assignment on a scalar). An empty mapping of
   * `over` leaves `base` as it is, whatever it is.
   */
  function Overlay(base: Tree, over: Tree): (r: Option<Tree>)
    ensures over.Node? && over.kids != map[] && base.Leaf? ==> r.None?
    ensures r.Some? && over.Node? && over.kids != map[] ==>
      && base.Node? && r.value.Node?
      && r.value.kids.Keys == base.kids.Keys + over.kids.Keys
    decreases over
  {
    match over
    case Leaf(_) => Some(over)
    case Node(o) =>
      if o == map[] then Some(base)
      else match base
        case Leaf(_) => None
        case Node(b) =>
          if exists x :: x in o && o[x].Node? && (x !in b || Overlay(b[x], o[x]).None?) then None
          else Some(Node(map x | x in b.Keys + o.Keys ::
            if x !in o then b[x]
            else if o[x].Leaf? then o[x]
            else Overlay(b[x], o[x]).value))
  }

  /** Where an overlay fails: `path` leads, through mappings of both trees, to a non-empty
      mapping of `over` that meets a leaf of `base`, or to a mapping of `over` under a key
      that `base` lacks. */
  predicate Clash(base: Tree, over: Tree, path: seq<string>)
    decreases path
  {
    over.Node? && over.kids != map[] &&
    if path == [] then base.Leaf?
    else
      && base.Node?
      && path[0] in over.kids
      && over.kids[path[0]].Node?
      && if path[0] in base.kids then Clash(base.kids[path[0]], over.kids[path[0]], path[1..])
         else |path| == 1
  }

  /** The overlay fails exactly when there is a clash somewhere. */
  lemma {:induction false} OverlayFailsIff(base: Tree, over: Tree)
    ensures Overlay(base, over).None? <==> exists path :: Clash(base, over, path)
  {
    if Overlay(base, over).None? {
      var path := ClashOf(base, over);
      assert Clash(base, over, path);
      assert exists p :: Clash(base, over, p);
    } else if exists path :: Clash(base, over, path) {
      var path :| Clash(base, over, path);
      ClashFails(base, over, path);
      assert false;
    }
  }

  lemma {:induction false} ClashOf(base: Tree, over: Tree) returns (path: seq<string>)
    requires Overlay(base, over).None?
    ensures Clash(base, over, path)
    decreases over
  {
    var o := over.kids;
    if base.Leaf? {
      path := [];
    } else {
      var b := base.kids;
      var x :| x in o && o[x].Node? && (x !in b || Overlay(b[x], o[x]).None?);
      if x !in b {
        path := [x];
      } else {
        var rest := ClashOf(b[x], o[x]);
        path := [x] + rest;
        assert path[1..] == rest;
      }
    }
  }

  lemma {:induction false} ClashFails(base: Tree, over: Tree, path: seq<string>)
    requires Clash(base, over, path)
    ensures Overlay(base, over).None?
    decreases path
  {
    if path != [] {
      var x := path[0];
      if x in base.kids {
        ClashFails(base.kids[x], over.kids[x], path[1..]);
      }
      assert x in over.kids && over.kids[x].Node? && (x !in base.kids || Overlay(base.kids[x], over.kids[x]).None?);
    }
  }

  /** A mapping in the user's file under a key the template lacks makes the merge fail. */
  lemma MissingKeyFails(base: Tree, over: Tree, x: string)
    requires base.Node? && over.Node?
    requires x in over.kids && over.kids[x].Node? && x !in base.kids
    ensures Overlay(base, over).None?
  {
    assert Clash(base, over, [x]);
    ClashFails(base, over, [x]);
  }

  /** Every value of `over` that is not a mapping ends up at the same path of the result. */
  lemma {:induction false} OverlayKeepsOverLeaves(base: Tree, over: Tree, path: seq<string>, v: Scalar)
    requires Overlay(base, over).Some?
    requires Get(over, path) == Some(Leaf(v))
    ensures Get(Overlay(base, over).value, path) == Some(Leaf(v))
    decreases path
  {
    if path != [] {
      var x := path[0];
      var o := over.kids;
      var r := Overlay(base, over).value;
      assert r.kids[x] == if o[x].Leaf? then o[x] else Overlay(base.kids[x], o[x]).value;
      if o[x].Node? {
        OverlayKeepsOverLeaves(base.kids[x], o[x], path[1..], v);
      }
    }
  }

  /** A path that leaves `over` at a missing key or at an empty mapping, while still in
      mappings of both trees, names a value of `base` the user's file does not set. */
  predicate OnlyInBase(base: Tree, over: Tree, path: seq<string>)
    decreases path
  {
    && path != []
    && base.Node? && over.Node?
    && path[0] in base.kids
    && (|| path[0] !in over.kids
        || over.kids[path[0]] == Node(map[])
        || (over.kids[path[0]].Node? && OnlyInBase(base.kids[path[0]], over.kids[path[0]], path[1..])))
  }

  /** Values only the template has keep the template's value in the result. */
  lemma {:induction false} OverlayKeepsBaseOnly(base: Tree, over: Tree, path: seq<string>)
    requires Overlay(base, over).Some?
    requires OnlyInBase(base, over, path)
    ensures Get(Overlay(base, over).value, path) == Get(base, path)
    decreases path
  {
    var x := path[0];
    var o, b := over.kids, base.kids;
    if o != map[] {
      var r := Overlay(base, over).value;
      if x in o && o[x] == Node(map[]) {
        assert r.kids[x] == b[x];
      } else if x in o {
        assert r.kids[x] == Overlay(b[x], o[x]).value;
        OverlayKeepsBaseOnly(b[x], o[x], path[1..]);
      } else {
        assert r.kids[x] == b[x];
      }
    }
  }

  // ---------------------------------------------------------------------------
  // Updating a config file from its template
  // ---------------------------------------------------------------------------

  /** `data['Metadata']['VERSION']` as an integer; None where Python raises or where the
      version is not an integer. */
  function Version(t: Tree): (v: Option<int>)
    ensures v.Some? <==> exists n :: Get(t, ["Metadata", "VERSION"]) == Some(Leaf(Int(n)))
    ensures v.Some? ==> Get(t, ["Metadata", "VERSION"]) == Some(Leaf(Int(v.value)))
  {
    match Get(t, ["Metadata", "VERSION"])
    case Some(Leaf(Int(n))) => Some(n)
    case _ => None
  }

  /** The tree with its version set to `v`. */
  function WithVersion(t: Tree, v: int): (r: Tree)
    requires Version(t).Some?
    ensures Version(r) == Some(v)
    ensures r.Node? && r.kids.Keys == t.kids.Keys
  {
    var meta := t.kids["Metadata"];
    Node(t.kids["Metadata" := Node(meta.kids["VERSION" := Leaf(Int(v))])])
  }

  /**
   * The config the bot ends up with, given the loaded template and the user's loaded
   * file: when the template is newer, the template with the user's values written over
   * it and the template's version; otherwise the user's file as it is. None where the
   * code raises.
   */
  function UpdateConfig(template: Tree, target: Tree): (r: Option<Tree>)
    ensures r.Some? ==> Version(template).Some? && Version(target).Some?
    ensures r.Some? ==>
      var tv, gv := Version(template).value, Version(target).value;
      Version(r.value) == Some(if tv > gv then tv else gv)
  {
    match (Version(template), Version(target))
    case (Some(tv), Some(gv)) =>
      if tv > gv then
        var over := WithVersion(target, tv);
        var merged := Overlay(template, over);
        if merged.Some? then
          OverlayKeepsOverLeaves(template, over, ["Metadata", "VERSION"], Int(tv));
          merged
        else merged
      else Some(target)
    case _ => None
  }

  /** A file that is not older than its template is returned unchanged. */
  lemma NotOutdatedUnchanged(template: Tree, target: Tree)
    requires Version(template).Some? && Version(target).Some?
    requires Version(template).value <= Version(target).value
    ensures UpdateConfig(template, target) == Some(target)
  {
  }

  /** An updated file carries the template's version, keeps every other value the user
      set, and keeps the template's value wherever the user set none. */
  lemma UpdatedFile(template: Tree, target: Tree, path: seq<string>, v: Scalar)
    requires Version(template).Some? && Version(target).Some?
    requires Version(template).value > Version(target).value
    requires UpdateConfig(template, target).Some?
    ensures Version(UpdateConfig(template, target).value) == Version(template)
    ensures path != ["Metadata", "VERSION"] && Get(target, path) == Some(Leaf(v)) ==>
      Get(UpdateConfig(template, target).value, path) == Some(Leaf(v))
    ensures OnlyInBase(template, WithVersion(target, Version(template).value), path) ==>
      Get(UpdateConfig(template, target).value, path) == Get(template, path)
  {
    var tv := Version(template).value;
    var over := WithVersion(target, tv);
    OverlayKeepsOverLeaves(template, over, ["Metadata", "VERSION"], Int(tv));
    if path != ["Metadata", "VERSION"] && Get(target, path) == Some(Leaf(v)) {
      WithVersionElsewhere(target, tv, path);
      OverlayKeepsOverLeaves(template, over, path, v);
    }
    if OnlyInBase(template, over, path) {
      OverlayKeepsBaseOnly(template, over, path);
    }
  }

  /** Setting the version touches no other path. */
  lemma WithVersionElsewhere(t: Tree, v: int, path: seq<string>)
    requires Version(t).Some?
    requires path != ["Metadata", "VERSION"]
    requires Get(t, path).Some? && Get(t, path).value.Leaf?
    ensures Get(WithVersion(t, v), path) == Get(t, path)
  {
    if path != [] && path[0] == "Metadata" && |path| > 1 {
      var meta := t.kids["Metadata"];
      var meta' := WithVersion(t, v).kids["Metadata"];
      assert path[1..][1..] == path[2..];
      assert Get(t, path) == Get(meta, path[1..]);
      assert Get(WithVersion(t, v), path) == Get(meta', path[1..]);
      if path[1] == "VERSION" {
        GetPastLeaf(meta.kids["VERSION"], path[2..]);
        assert false;
      }
    }
  }

  /** Nothing lies below a leaf. */
  lemma GetPastLeaf(leaf: Tree, path: seq<string>)
    requires leaf.Leaf? && path != []
    ensures Get(leaf, path) == None
  {
  }

  /** The update fails exactly when a version cannot be read, or when the template is
      newer and the user's file clashes with it. */
  lemma UpdateFails(template: Tree, target: Tree)
    ensures UpdateConfig(template, target).None? <==>
      || Version(template).None?
      || Version(target).None?
      || (Version(template).value > Version(target).value &&
          exists path :: Clash(template, WithVersion(target, Version(template).value), path))
  {
    if Version(template).Some? && Version(target).Some? && Version(template).value > Version(target).value {
      OverlayFailsIff(template, WithVersion(target, Version(template).value));
    }
  }

  // ---------------------------------------------------------------------------
  // Colours
  // ---------------------------------------------------------------------------

  /** Characters Python's `int()` strips from the ends of its argument: ASCII blanks and
      the non-ASCII Unicode spaces. */
  predicate IsSpace(c: char) {
    var n := c as int;
    (0x09 <= n <= 0x0d) || n == 0x20 || n == 0x85 || n == 0xa0 || n == 0x1680 ||
    (0x2000 <= n <= 0x200a) || n == 0x2028 || n == 0x2029 || n == 0x202f || n == 0x205f ||
    n == 0x3000
  }

  predicate IsHexDigit(c: char) {
    ('0' <= c <= '9') || ('a' <= c <= 'f') || ('A' <= c <= 'F')
  }

  function HexDigitValue(c: char): (d: nat)
    requires IsHexDigit(c)
    ensures d < 16
  {
    if '0' <= c <= '9' then (c as int - '0' as int) as nat
    else if 'a' <= c <= 'f' then (c as int - 'a' as int + 10) as nat
    else (c as int - 'A' as int + 10) as nat
  }

  /** `s` without trailing whitespace. */
  function TrimEnd(s: string): (r: string)
    ensures |r| <= |s| && r == s[..|r|]
    ensures r == [] || !IsSpace(r[|r| - 1])
    ensures forall i :: |r| <= i < |s| ==> IsSpace(s[i])
  {
    if s != [] && IsSpace(s[|s| - 1]) then TrimEnd(s[..|s| - 1]) else s
  }

  /** The digits after a `0x` prefix as Python accepts them: hex digits, each of which
      may be preceded by one underscore. */
  predicate HexBody(s: string) {
    && s != []
    && (forall i :: 0 <= i < |s| ==> IsHexDigit(s[i]) || s[i] == '_')
    && s[|s| - 1] != '_'
    && (forall i :: 0 <= i < |s| - 1 ==> s[i] == '_' ==> s[i + 1] != '_')
  }

  /** The value of the hex digits of `s`, underscores ignored. */
  function HexValue(s: string): nat
    requires forall i :: 0 <= i < |s| ==> IsHexDigit(s[i]) || s[i] == '_'
  {
    if s == [] then 0
    else if s[|s| - 1] == '_' then HexValue(s[..|s| - 1])
    else 16 * HexValue(s[..|s| - 1]) + HexDigitValue(s[|s| - 1])
  }

  /** `int('0x' + s, base=16)`; None where Python raises ValueError. */
  function ParseHexColor(s: string): (r: Option<nat>)
    ensures r.Some? ==> s != [] && !IsSpace(s[0])
    ensures r.Some? ==> forall i :: 0 <= i < |s| ==> IsHexDigit(s[i]) || s[i] == '_' || IsSpace(s[i])
  {
    var body := TrimEnd(s);
    if HexBody(body) then Some(HexValue(body)) else None
  }

  /** `getColor(key)`: the colour configured under `Colors` as a number; None where the key
      is missing, the value is not a string, or the string is not hex. */
  function GetColor(config: Tree, key: string): (r: Option<nat>)
    ensures r.Some? ==> exists s :: Get(config, ["Colors", key]) == Some(Leaf(Str(s))) && ParseHexColor(s) == r
  {
    match Get(config, ["Colors", key])
    case Some(Leaf(Str(s))) => ParseHexColor(s)
    case _ => None
  }

  /** A colour written under `Colors` as hex digits (trailing blanks allowed) is read as its
      value; a missing key or a value that is not a string gives no colour. */
  lemma ConfiguredColor(config: Tree, key: string, n: nat, pad: string)
    requires forall i :: 0 <= i < |pad| ==> IsSpace(pad[i])
    ensures Get(config, ["Colors", key]) == Some(Leaf(Str(Hex(n) + pad))) ==> GetColor(config, key) == Some(n)
    ensures Get(config, ["Colors", key]).None? ==> GetColor(config, key).None?
    ensures (forall s :: Get(config, ["Colors", key]) != Some(Leaf(Str(s)))) ==> GetColor(config, key).None?
  {
    ParseHexRoundTrip(n, pad);
  }

  /** A colour written under `Colors` in hex digits of either case, with or without leading
      zeros and trailing blanks, is read as its value. */
  lemma ConfiguredNumeral(config: Tree, key: string, n: nat, cases: seq<bool>, pad: string)
    requires cases != [] && n < Pow16(|cases|)
    requires forall i :: 0 <= i < |pad| ==> IsSpace(pad[i])
    requires Get(config, ["Colors", key]) == Some(Leaf(Str(Numeral(n, cases) + pad)))
    ensures GetColor(config, key) == Some(n)
  {
    StoredColor(config, key, Numeral(n, cases) + pad);
    ParseNumeral(n, cases, pad);
  }

  /** A string stored under `Colors` is read through `ParseHexColor`. */
  lemma StoredColor(config: Tree, key: string, s: string)
    requires Get(config, ["Colors", key]) == Some(Leaf(Str(s)))
    ensures GetColor(config, key) == ParseHexColor(s)
  {
  }

  function HexDigitChar(d: nat): (c: char)
    requires d < 16
    ensures IsHexDigit(c) && HexDigitValue(c) == d
  {
    "0123456789abcdef"[d]
  }

  /** A reference encoder: the lower-case hex digits of `n`, as a colour is written. */
  function Hex(n: nat): (s: string)
    ensures s != [] && forall i :: 0 <= i < |s| ==> IsHexDigit(s[i])
  {
    if n < 16 then [HexDigitChar(n)] else Hex(n / 16) + [HexDigitChar(n % 16)]
  }

  /** A hex digit of value `d`, in upper case when `upper` holds (digits 0-9 have one case). */
  function HexDigitCased(d: nat, upper: bool): (c: char)
    requires d < 16
    ensures IsHexDigit(c) && HexDigitValue(c) == d
  {
    if d < 10 then ('0' as int + d) as char
    else if upper then ('A' as int + d - 10) as char
    else ('a' as int + d - 10) as char
  }

  /** A reference encoder for every way of writing a colour: `n` in `|cases|` hex digits,
      leading zeros included, digit i in upper case when `cases[i]` holds. */
  function Numeral(n: nat, cases: seq<bool>): (s: string)
    ensures |s| == |cases|
    ensures forall i :: 0 <= i < |s| ==> IsHexDigit(s[i])
    decreases |cases|
  {
    if cases == [] then []
    else Numeral(n / 16, cases[..|cases| - 1]) + [HexDigitCased(n % 16, cases[|cases| - 1])]
  }

  /** A numeral wide enough for `n` has value `n`. */
  lemma {:induction false} HexValueOfNumeral(n: nat, cases: seq<bool>)
    requires n < Pow16(|cases|)
    ensures HexValue(Numeral(n, cases)) == n
    decreases |cases|
  {
    if cases != [] {
      var s := Numeral(n, cases);
      var init := cases[..|cases| - 1];
      assert s[..|s| - 1] == Numeral(n / 16, init);
      HexValueOfNumeral(n / 16, init);
    }
  }

  /** Every colour written in hex digits of either case, with leading zeros or not and
      followed by any whitespace, reads back as its number. */
  lemma ParseNumeral(n: nat, cases: seq<bool>, pad: string)
    requires cases != [] && n < Pow16(|cases|)
    requires forall i :: 0 <= i < |pad| ==> IsSpace(pad[i])
    ensures ParseHexColor(Numeral(n, cases) + pad) == Some(n)
  {
    HexValueOfNumeral(n, cases);
    TrimEndPadding(Numeral(n, cases), pad);
  }

  /** Every non-empty string of hex digits is a numeral of its value, so `ParseNumeral`
      covers every colour Python reads without underscores. */
  lemma {:induction false} NumeralOf(s: string) returns (cases: seq<bool>)
    requires forall i :: 0 <= i < |s| ==> IsHexDigit(s[i])
    ensures |cases| == |s| && Numeral(HexValue(s), cases) == s
  {
    if s == [] {
      cases := [];
    } else {
      var init := s[..|s| - 1];
      var last := s[|s| - 1];
      var initCases := NumeralOf(init);
      cases := initCases + ['A' <= last <= 'F'];
      assert cases[..|cases| - 1] == initCases;
      var v := HexValue(s);
      assert v / 16 == HexValue(init) && v % 16 == HexDigitValue(last);
      assert HexDigitCased(HexDigitValue(last), 'A' <= last <= 'F') == last;
    }
  }

  /** Upper case and leading zeros: "00FF00" reads as 0xFF00. */
  lemma LeadingZeroColor()
    ensures ParseHexColor("00FF00") == Some(0xff00)
  {
    var cases := [false, false, true, true, false, false];
    assert cases[..0] == [] && Numeral(0, cases[..0]) == "";
    assert cases[..1][..0] == cases[..0] && Numeral(0, cases[..1]) == "0";
    assert cases[..2][..1] == cases[..1] && Numeral(0, cases[..2]) == "00";
    assert cases[..3][..2] == cases[..2] && Numeral(0xf, cases[..3]) == "00F";
    assert cases[..4][..3] == cases[..3] && Numeral(0xff, cases[..4]) == "00FF";
    assert cases[..5][..4] == cases[..4] && Numeral(0xff0, cases[..5]) == "00FF0";
    assert cases[..5] == cases[..|cases| - 1] && Numeral(0xff00, cases) == "00FF00";
    assert Pow16(6) == 0x1000000;
    ParseNumeral(0xff00, cases, "");
    assert "00FF00" + "" == "00FF00";
  }

  /** Every colour written as hex digits, with or without trailing whitespace, reads back as
      itself. */
  lemma {:induction false} ParseHexRoundTrip(n: nat, pad: string)
    requires forall i :: 0 <= i < |pad| ==> IsSpace(pad[i])
    ensures ParseHexColor(Hex(n) + pad) == Some(n)
  {
    HexValueOfHex(n);
    TrimEndPadding(Hex(n), pad);
  }

  lemma {:induction false} HexValueOfHex(n: nat)
    ensures HexValue(Hex(n)) == n
  {
    if n >= 16 {
      var s := Hex(n);
      assert s[..|s| - 1] == Hex(n / 16);
      HexValueOfHex(n / 16);
    }
  }

  lemma {:induction false} TrimEndPadding(s: string, pad: string)
    requires s != [] && !IsSpace(s[|s| - 1])
    requires forall i :: 0 <= i < |pad| ==> IsSpace(pad[i])
    ensures TrimEnd(s + pad) == s
    decreases |pad|
  {
    if pad == [] {
      assert s + pad == s;
    } else {
      var shorter := pad[..|pad| - 1];
      assert (s + pad)[..|s + pad| - 1] == s + shorter;
      TrimEndPadding(s, shorter);
    }
  }

  /** A colour of `k` hex digits is below 16^k; six digits give a 24-bit colour. */
  lemma {:induction false} HexValueBound(s: string)
    requires forall i :: 0 <= i < |s| ==> IsHexDigit(s[i]) || s[i] == '_'
    ensures HexValue(s) < Pow16(DigitCount(s))
  {
    if s != [] {
      HexValueBound(s[..|s| - 1]);
    }
  }

  /** The number of hex digits (not underscores) in `s`. */
  function DigitCount(s: string): nat {
    if s == [] then 0
    else DigitCount(s[..|s| - 1]) + (if s[|s| - 1] == '_' then 0 else 1)
  }

  lemma {:induction false} DigitCountOfDigits(s: string)
    requires forall i :: 0 <= i < |s| ==> IsHexDigit(s[i])
    ensures DigitCount(s) == |s|
  {
    if s != [] {
      DigitCountOfDigits(s[..|s| - 1]);
    }
  }

  function Pow16(k: nat): (p: nat)
    ensures p >= 1
  {
    if k == 0 then 1 else 16 * Pow16(k - 1)
  }

  /** A configured colour is at most 0xFFFFFF when written with six digits. */
  lemma SixDigitColor(s: string)
    requires |s| == 6 && forall i :: 0 <= i < 6 ==> IsHexDigit(s[i])
    ensures ParseHexColor(s).Some? && ParseHexColor(s).value < 0x1000000
  {
    assert TrimEnd(s) == s;
    HexValueBound(s);
    DigitCountOfDigits(s);
  }
}
