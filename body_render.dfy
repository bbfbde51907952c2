/**
 * The textual rendering of lowered bodies used by the compiler's debug
 * output: one function that says what an expression or statement renders
 * to, and the writer methods that append that text piece by piece.
 *
 * How a type is displayed is not part of this model; the renderer takes
 * it as the function `display`.
 */
module HirBodyRender {
  import opened Wrappers
  import opened HirBody

  // ---------------------------------------------------------------------
  // Numbers and characters.

  function DigitChar(d: nat): (c: char)
    requires d < 10
    ensures '0' <= c <= '9'
  {
    (('0' as int) + d) as char
  }

  predicate IsDigit(c: char)
  {
    '0' <= c <= '9'
  }

  /** `n` in decimal, as `format!("{}", n)` writes it. */
  function NatToString(n: nat): (r: string)
    ensures |r| >= 1 && forall i :: 0 <= i < |r| ==> IsDigit(r[i])
    ensures |r| > 1 ==> r[0] != '0'
  {
    if n < 10 then [DigitChar(n)] else NatToString(n / 10) + [DigitChar(n % 10)]
  }

  function DigitValue(c: char): nat
    requires IsDigit(c)
  {
    (c as int) - ('0' as int)
  }

  /** The number a string of decimal digits denotes. */
  function ParseDecimal(s: string): nat
    requires forall i :: 0 <= i < |s| ==> IsDigit(s[i])
  {
    if s == [] then 0 else 10 * ParseDecimal(s[..|s| - 1]) + DigitValue(s[|s| - 1])
  }

  /** Decimal rendering loses nothing. */
  lemma {:induction false} NatToStringRoundTrip(n: nat)
    ensures ParseDecimal(NatToString(n)) == n
  {
    if n >= 10 {
      NatToStringRoundTrip(n / 10);
      var r := NatToString(n);
      assert r[..|r| - 1] == NatToString(n / 10);
    }
  }

  function Spaces(n: nat): (r: string)
    ensures |r| == n && forall i :: 0 <= i < n ==> r[i] == ' '
  {
    if n == 0 then [] else Spaces(n - 1) + [' ']
  }

  function HexDigit(d: nat): (c: char)
    requires d < 16
  {
    if d < 10 then (('0' as int) + d) as char else (('a' as int) + d - 10) as char
  }

  /** Lower-case hexadecimal without leading zeros, for values below 256. */
  function Hex(n: nat): (r: string)
    requires n < 256
    ensures 1 <= |r| <= 2
  {
    if n < 16 then [HexDigit(n)] else [HexDigit(n / 16), HexDigit(n % 16)]
  }

  /** An ASCII character Rust's `Debug` does not print as it is. */
  predicate IsAsciiControl(c: char)
  {
    (c as int) < 0x20 || (c as int) == 0x7F
  }

  /** How `{:?}` writes one character of a string. */
  function DebugChar(c: char): string
  {
    match c
    case '\0' => "\\0"
    case '\t' => "\\t"
    case '\r' => "\\r"
    case '\n' => "\\n"
    case '\\' => "\\\\"
    case '"' => "\\\""
    case _ => if IsAsciiControl(c) then "\\u{" + Hex(c as int) + "}" else [c]
  }

  function DebugChars(s: string): string
  {
    if s == [] then [] else DebugChar(s[0]) + DebugChars(s[1..])
  }

  /** A string literal as `{:?}` writes it: quoted and escaped. */
  function DebugStr(s: string): string
  {
    "\"" + DebugChars(s) + "\""
  }

  function HexValue(c: char): Option<nat>
  {
    if '0' <= c <= '9' then Some((c as int) - ('0' as int))
    else if 'a' <= c <= 'f' then Some((c as int) - ('a' as int) + 10)
    else None
  }

  /** Reads back the escaped contents of a debug-printed string. */
  function UndebugChars(s: string): Option<string>
  {
    if s == [] then Some([])
    else if s[0] != '\\' then
      var rest := UndebugChars(s[1..]);
      if rest.Some? then Some([s[0]] + rest.value) else None
    else if |s| < 2 then None
    else if s[1] in {'0', 't', 'r', 'n', '\\', '"'} then
      var c := match s[1] case '0' => '\0' case 't' => '\t' case 'r' => '\r' case 'n' => '\n' case _ => s[1];
      var rest := UndebugChars(s[2..]);
      if rest.Some? then Some([c] + rest.value) else None
    else if s[1] == 'u' && |s| >= 5 && s[2] == '{' && HexValue(s[3]).Some? then
      if s[4] == '}' then
        var rest := UndebugChars(s[5..]);
        if rest.Some? then Some([HexValue(s[3]).value as char] + rest.value) else None
      else if |s| >= 6 && HexValue(s[4]).Some? && s[5] == '}' && HexValue(s[3]).value * 16 + HexValue(s[4]).value < 0xD800 then
        var rest := UndebugChars(s[6..]);
        if rest.Some? then Some([(HexValue(s[3]).value * 16 + HexValue(s[4]).value) as char] + rest.value) else None
      else None
    else None
  }

  lemma HexRoundTrip(n: nat)
    requires n < 256
    ensures var h := Hex(n);
      && HexValue(h[0]).Some?
      && (|h| == 1 ==> HexValue(h[0]).value == n)
      && (|h| == 2 ==> HexValue(h[1]).Some? && HexValue(h[0]).value * 16 + HexValue(h[1]).value == n)
  {
  }

  lemma UndebugCharStep(c: char, rest: string)
    ensures UndebugChars(DebugChar(c) + rest) ==
      if UndebugChars(rest).Some? then Some([c] + UndebugChars(rest).value) else None
  {
    var s := DebugChar(c) + rest;
    if c in {'\0', '\t', '\r', '\n', '\\', '"'} {
      assert s[2..] == rest;
    } else if IsAsciiControl(c) {
      var h := Hex(c as int);
      HexRoundTrip(c as int);
      assert s == "\\u{" + h + "}" + rest;
      if |h| == 1 {
        assert s[3] == h[0] && s[4] == '}' && s[5..] == rest;
      } else {
        assert s[3] == h[0] && s[4] == h[1] && s[5] == '}' && s[6..] == rest;
      }
    } else {
      assert s[0] == c && s[1..] == rest;
    }
  }

  /** Escaping a string for debug output can be undone. */
  lemma {:induction false} DebugCharsRoundTrip(s: string)
    ensures UndebugChars(DebugChars(s)) == Some(s)
  {
    if s != [] {
      DebugCharsRoundTrip(s[1..]);
      UndebugCharStep(s[0], DebugChars(s[1..]));
      assert [s[0]] + s[1..] == s;
    }
  }

  // ---------------------------------------------------------------------
  // Layout of lists.

  /** The first `k` of the rendered array items `rs`, each preceded by a
      space and followed by a comma unless it is the last of all. */
  function ArrayItemsText(rs: seq<string>, k: nat): string
    requires k <= |rs|
  {
    if k == 0 then ""
    else ArrayItemsText(rs, k - 1) + " " + rs[k - 1] + (if k - 1 != |rs| - 1 then "," else "")
  }

  /** The first `k` of the rendered call arguments `rs`, separated by `, `. */
  function ArgsText(rs: seq<string>, k: nat): string
    requires k <= |rs|
  {
    if k == 0 then ""
    else ArgsText(rs, k - 1) + (if k - 1 != 0 then ", " else "") + rs[k - 1]
  }

  /** The first `k` of the rendered statements `rs`, one line each at `ind`. */
  function StmtLines(rs: seq<string>, k: nat, ind: nat): string
    requires k <= |rs|
  {
    if k == 0 then "" else StmtLines(rs, k - 1, ind) + Spaces(ind) + rs[k - 1] + "\n"
  }

  /** Array items and call arguments are both separated by `, `; array
      items carry one extra leading space. */
  lemma {:induction false} ArrayItemsAreJoined(rs: seq<string>, k: nat)
    requires k <= |rs|
    ensures k < |rs| ==> ArrayItemsText(rs, k) == (if k == 0 then "" else " " + ArgsText(rs, k) + ",")
    ensures k == |rs| ==> ArrayItemsText(rs, k) == (if k == 0 then "" else " " + ArgsText(rs, k))
  {
    if k == 1 {
      assert ArgsText(rs, 1) == rs[0];
    } else if k > 1 {
      ArrayItemsAreJoined(rs, k - 1);
      var a, sep := ArgsText(rs, k - 1), if k - 1 != |rs| - 1 then "," else "";
      assert ArgsText(rs, k) == a + ", " + rs[k - 1];
      assert ArrayItemsText(rs, k) == " " + a + "," + " " + rs[k - 1] + sep;
      JoinStep(a, rs[k - 1], sep);
    }
  }

  lemma JoinStep(a: string, r: string, sep: string)
    ensures " " + a + "," + " " + r + sep == " " + (a + ", " + r) + sep
  {
  }

  /** The joined arguments are the pieces and the separators, in order. */
  lemma {:induction false} ArgsTextSnoc(rs: seq<string>, r: string)
    ensures ArgsText(rs + [r], |rs| + 1) == if rs == [] then r else ArgsText(rs, |rs|) + ", " + r
  {
    ArgsTextPrefix(rs + [r], rs, |rs|);
  }

  lemma {:induction false} ArgsTextPrefix(rs: seq<string>, ps: seq<string>, k: nat)
    requires k <= |ps| <= |rs| && ps == rs[..|ps|]
    ensures ArgsText(rs, k) == ArgsText(ps, k)
  {
    if k > 0 {
      ArgsTextPrefix(rs, ps, k - 1);
      assert rs[k - 1] == ps[k - 1];
    }
  }

  // ---------------------------------------------------------------------
  // Expressions and statements.

  /** Every expression refers only to earlier expressions and to types in
      an arena of `arenaLen` types: the part of well-formedness rendering
      relies on. */
  predicate ExprsClosed(b: Bodies, arenaLen: nat)
  {
    forall i :: 0 <= i < |b.exprs| ==> ExprRefsBelow(b, b.exprs[i], i, arenaLen)
  }

  lemma WellFormedExprsClosed(b: Bodies, arenaLen: nat)
    requires WellFormed(b, arenaLen)
    ensures ExprsClosed(b, arenaLen)
  {
  }

  predicate AllBelow(ids: seq<nat>, bound: nat)
  {
    forall j :: 0 <= j < |ids| ==> ids[j] < bound
  }

  predicate StmtsBelow(b: Bodies, stmts: seq<nat>, bound: nat)
  {
    forall j :: 0 <= j < |stmts| ==> StmtValueBelow(b, stmts[j], bound)
  }

  function BinaryOpText(op: BinaryOp): string
  {
    match op
    case Add => "+"
    case Sub => "-"
    case Mul => "*"
    case Div => "/"
    case Lt => "<"
    case Gt => ">"
    case Le => "<="
    case Ge => ">="
    case Eq => "=="
    case Ne => "!="
    case And => "&&"
    case Or => "||"
  }

  function UnaryOpText(op: UnaryOp): string
  {
    match op
    case Pos => "+"
    case Neg => "-"
    case Not => "!"
  }

  function PathText(p: Path): string
  {
    match p
    case ThisModule(name) => name
    case OtherModule(fqn) => fqn.moduleName + "." + fqn.name
  }

  /** The text of expression `id`, indented by `ind` where it spans lines. */
  function RenderExpr(b: Bodies, arena: seq<TyWithRange>, display: TyWithRange -> string, id: nat, ind: nat): string
    requires ExprsClosed(b, |arena|) && id < |b.exprs|
    decreases id, 1
  {
    match b.exprs[id]
    case Missing => "<missing>"
    case IntLiteral(n) => NatToString(n)
    case BoolLiteral(v) => if v then "true" else "false"
    case StringLiteral(text) => DebugStr(text)
    case Array(items, ty) =>
      "[]" + display(ty) + "{" + ArrayItemsText(RenderExprs(b, arena, display, id, items, ind), |items|) + " }"
    case Index(base, index) =>
      RenderExpr(b, arena, display, base, ind) + "[ " + RenderExpr(b, arena, display, index, ind) + " ]"
    case Cast(e, ty) => RenderExpr(b, arena, display, e, ind) + " as " + display(ty)
    case Ref(e) => "^" + RenderExpr(b, arena, display, e, ind)
    case Deref(e) => RenderExpr(b, arena, display, e, ind) + "^"
    case Binary(l, r, op) =>
      RenderExpr(b, arena, display, l, ind) + " " + BinaryOpText(op) + " " + RenderExpr(b, arena, display, r, ind)
    case Unary(e, op) => UnaryOpText(op) + RenderExpr(b, arena, display, e, ind)
    case Block(stmts, tail) =>
      if stmts == [] && tail.None? then "{}"
      else if stmts == [] then "{ " + RenderExpr(b, arena, display, tail.value, ind + 4) + " }"
      else
        "{\n" + StmtLines(RenderStmts(b, arena, display, id, stmts, ind + 4), |stmts|, ind + 4)
        + (if tail.Some? then Spaces(ind + 4) + RenderExpr(b, arena, display, tail.value, ind + 4) + "\n" else "")
        + Spaces(ind) + "}"
    case If(c, body, el) =>
      "if " + RenderExpr(b, arena, display, c, ind) + " " + RenderExpr(b, arena, display, body, ind)
      + (if el.Some? then " else " + RenderExpr(b, arena, display, el.value, ind) else "")
    case While(c, body) =>
      (if c.Some? then "while " + RenderExpr(b, arena, display, c.value, ind) + " " else "loop ")
      + RenderExpr(b, arena, display, body, ind)
    case Local(d) => "l" + NatToString(d)
    case Param(idx) => "p" + NatToString(idx)
    case Call(path, args) => PathText(path) + "(" + ArgsText(RenderExprs(b, arena, display, id, args, ind), |args|) + ")"
    case Global(path) => PathText(path)
    case Ty(t) => display(arena[t])
    case Distinct(uid, t) => "distinct'" + NatToString(uid) + " " + display(arena[t])
  }

  /** The texts of the expressions `ids`, all below `bound`. */
  function RenderExprs(b: Bodies, arena: seq<TyWithRange>, display: TyWithRange -> string, bound: nat,
                       ids: seq<nat>, ind: nat): (r: seq<string>)
    requires ExprsClosed(b, |arena|) && bound <= |b.exprs| && AllBelow(ids, bound)
    ensures |r| == |ids|
    ensures forall j :: 0 <= j < |ids| ==> r[j] == RenderExpr(b, arena, display, ids[j], ind)
    decreases bound, 0, |ids|
  {
    if ids == [] then []
    else RenderExprs(b, arena, display, bound, ids[..|ids| - 1], ind) + [RenderExpr(b, arena, display, ids[|ids| - 1], ind)]
  }

  /** The texts of the statements `stmts` of a block at `bound`. */
  function RenderStmts(b: Bodies, arena: seq<TyWithRange>, display: TyWithRange -> string, bound: nat,
                       stmts: seq<nat>, ind: nat): (r: seq<string>)
    requires ExprsClosed(b, |arena|) && bound <= |b.exprs| && StmtsBelow(b, stmts, bound)
    ensures |r| == |stmts|
    ensures forall j :: 0 <= j < |stmts| ==> r[j] == RenderStmt(b, arena, display, bound, stmts[j], ind)
    decreases bound, 0, |stmts|
  {
    if stmts == [] then []
    else
      RenderStmts(b, arena, display, bound, stmts[..|stmts| - 1], ind)
      + [RenderStmt(b, arena, display, bound, stmts[|stmts| - 1], ind)]
  }

  /** A statement: `e;`, `l<id> := e;` or `l<id> = e;`, with `<unknown>` for
      an assignment to an unresolved local. */
  function RenderStmt(b: Bodies, arena: seq<TyWithRange>, display: TyWithRange -> string, bound: nat, s: nat, ind: nat): string
    requires ExprsClosed(b, |arena|) && bound <= |b.exprs| && StmtValueBelow(b, s, bound)
    decreases bound, 0, 0
  {
    match b.stmts[s]
    case ExprStmt(e) => RenderExpr(b, arena, display, e, ind) + ";"
    case LocalDefStmt(d) => "l" + NatToString(d) + " := " + RenderExpr(b, arena, display, b.localDefs[d].value, ind) + ";"
    case LocalSetStmt(l) =>
      "l" + (if b.localSets[l].localDef.Some? then NatToString(b.localSets[l].localDef.value) else "<unknown>")
      + " = " + RenderExpr(b, arena, display, b.localSets[l].value, ind) + ";"
  }

  /** An array renders as `[]ty{`, its items joined by `, ` after a space,
      and ` }`; a call as its path and its arguments joined by `, ` in
      parentheses. */
  lemma RenderArrayAndCall(b: Bodies, arena: seq<TyWithRange>, display: TyWithRange -> string, id: nat, ind: nat)
    requires ExprsClosed(b, |arena|) && id < |b.exprs|
    ensures b.exprs[id].Array? ==>
      var items := b.exprs[id].items;
      RenderExpr(b, arena, display, id, ind) ==
        "[]" + display(b.exprs[id].arrayTy) + "{"
        + (if items == [] then "" else " " + ArgsText(RenderExprs(b, arena, display, id, items, ind), |items|)) + " }"
    ensures b.exprs[id].Call? ==>
      var args := b.exprs[id].args;
      RenderExpr(b, arena, display, id, ind) ==
        PathText(b.exprs[id].path) + "(" + ArgsText(RenderExprs(b, arena, display, id, args, ind), |args|) + ")"
  {
    assert ExprRefsBelow(b, b.exprs[id], id, |arena|);
    if b.exprs[id].Array? {
      var rs := RenderExprs(b, arena, display, id, b.exprs[id].items, ind);
      ArrayItemsAreJoined(rs, |rs|);
    }
  }

  // ---------------------------------------------------------------------
  // Writers.

  /** Writes the text of expression `id` into a fresh buffer. */
  method WriteExpr(b: Bodies, arena: seq<TyWithRange>, display: TyWithRange -> string, id: nat, ind: nat)
    returns (text: string)
    requires ExprsClosed(b, |arena|) && id < |b.exprs|
    ensures text == RenderExpr(b, arena, display, id, ind)
    decreases id, 2
  {
    assert ExprRefsBelow(b, b.exprs[id], id, |arena|);
    match b.exprs[id] {
      case Array(items, ty) =>
        text := WriteArray(b, arena, display, id, ind);
      case Call(path, args) =>
        text := WriteCall(b, arena, display, id, ind);
      case Block(stmts, tail) =>
        text := WriteBlock(b, arena, display, id, ind);
      case Index(base, index) =>
        var baseText := WriteExpr(b, arena, display, base, ind);
        var indexText := WriteExpr(b, arena, display, index, ind);
        text := baseText + "[ " + indexText + " ]";
      case Cast(e, ty) =>
        var inner := WriteExpr(b, arena, display, e, ind);
        text := inner + " as " + display(ty);
      case Ref(e) =>
        var inner := WriteExpr(b, arena, display, e, ind);
        text := "^" + inner;
      case Deref(e) =>
        var inner := WriteExpr(b, arena, display, e, ind);
        text := inner + "^";
      case Binary(l, r, op) =>
        var lhs := WriteExpr(b, arena, display, l, ind);
        var rhs := WriteExpr(b, arena, display, r, ind);
        text := lhs + " " + BinaryOpText(op) + " " + rhs;
      case Unary(e, op) =>
        var inner := WriteExpr(b, arena, display, e, ind);
        text := UnaryOpText(op) + inner;
      case If(c, body, el) =>
        var condition := WriteExpr(b, arena, display, c, ind);
        var bodyText := WriteExpr(b, arena, display, body, ind);
        var elseText := "";
        if el.Some? {
          var e := WriteExpr(b, arena, display, el.value, ind);
          elseText := " else " + e;
        }
        text := "if " + condition + " " + bodyText + elseText;
      case While(c, body) =>
        var head := "loop ";
        if c.Some? {
          var condition := WriteExpr(b, arena, display, c.value, ind);
          head := "while " + condition + " ";
        }
        var bodyText := WriteExpr(b, arena, display, body, ind);
        text := head + bodyText;
      case _ =>
        text := RenderExpr(b, arena, display, id, ind);
    }
  }

  /** Writes an array: ` item` per item, with a comma after every item but
      the last. */
  method WriteArray(b: Bodies, arena: seq<TyWithRange>, display: TyWithRange -> string, id: nat, ind: nat)
    returns (text: string)
    requires ExprsClosed(b, |arena|) && id < |b.exprs| && b.exprs[id].Array?
    ensures text == RenderExpr(b, arena, display, id, ind)
    decreases id, 1
  {
    assert ExprRefsBelow(b, b.exprs[id], id, |arena|);
    var itemsText := WriteArrayItems(b, arena, display, id, b.exprs[id].items, ind);
    text := "[]" + display(b.exprs[id].arrayTy) + "{" + itemsText + " }";
  }

  /** The items of an array, each after a space and all but the last
      followed by a comma. */
  method WriteArrayItems(b: Bodies, arena: seq<TyWithRange>, display: TyWithRange -> string, bound: nat,
                         items: seq<nat>, ind: nat)
    returns (itemsText: string)
    requires ExprsClosed(b, |arena|) && bound <= |b.exprs| && AllBelow(items, bound)
    ensures itemsText == ArrayItemsText(RenderExprs(b, arena, display, bound, items, ind), |items|)
    decreases bound, 0
  {
    ghost var rs := RenderExprs(b, arena, display, bound, items, ind);
    itemsText := "";
    var idx := 0;
    while idx < |items|
      invariant 0 <= idx <= |items|
      invariant itemsText == ArrayItemsText(rs, idx)
    {
      var item := WriteExpr(b, arena, display, items[idx], ind);
      assert item == rs[idx];
      itemsText := itemsText + " " + item + (if idx != |items| - 1 then "," else "");
      idx := idx + 1;
    }
  }

  /** Writes a call: the path and the arguments separated by `, `. */
  method WriteCall(b: Bodies, arena: seq<TyWithRange>, display: TyWithRange -> string, id: nat, ind: nat)
    returns (text: string)
    requires ExprsClosed(b, |arena|) && id < |b.exprs| && b.exprs[id].Call?
    ensures text == RenderExpr(b, arena, display, id, ind)
    decreases id, 1
  {
    assert ExprRefsBelow(b, b.exprs[id], id, |arena|);
    var argsText := WriteArgs(b, arena, display, id, b.exprs[id].args, ind);
    text := PathText(b.exprs[id].path) + "(" + argsText + ")";
  }

  /** The arguments of a call, separated by `, `. */
  method WriteArgs(b: Bodies, arena: seq<TyWithRange>, display: TyWithRange -> string, bound: nat,
                   args: seq<nat>, ind: nat)
    returns (argsText: string)
    requires ExprsClosed(b, |arena|) && bound <= |b.exprs| && AllBelow(args, bound)
    ensures argsText == ArgsText(RenderExprs(b, arena, display, bound, args, ind), |args|)
    decreases bound, 0
  {
    ghost var rs := RenderExprs(b, arena, display, bound, args, ind);
    argsText := "";
    var idx := 0;
    while idx < |args|
      invariant 0 <= idx <= |args|
      invariant argsText == ArgsText(rs, idx)
    {
      var arg := WriteExpr(b, arena, display, args[idx], ind);
      assert arg == rs[idx];
      argsText := argsText + (if idx != 0 then ", " else "") + arg;
      idx := idx + 1;
    }
  }

  /** Writes a block: `{}` and `{ tail }` when there are no statements,
      otherwise one line per statement and for the tail, indented four
      more than the closing brace. */
  method WriteBlock(b: Bodies, arena: seq<TyWithRange>, display: TyWithRange -> string, id: nat, ind: nat)
    returns (text: string)
    requires ExprsClosed(b, |arena|) && id < |b.exprs| && b.exprs[id].Block?
    ensures text == RenderExpr(b, arena, display, id, ind)
    decreases id, 1
  {
    assert ExprRefsBelow(b, b.exprs[id], id, |arena|);
    var stmts, tail := b.exprs[id].stmts, b.exprs[id].tailExpr;
    if stmts == [] && tail.None? {
      return "{}";
    }
    if stmts == [] {
      var tailText := WriteExpr(b, arena, display, tail.value, ind + 4);
      return "{ " + tailText + " }";
    }
    var indentation := ind + 4;
    var lines := WriteStmtLines(b, arena, display, id, stmts, indentation);
    var tailLine := "";
    if tail.Some? {
      var tailText := WriteExpr(b, arena, display, tail.value, indentation);
      tailLine := Spaces(indentation) + tailText + "\n";
    }
    indentation := indentation - 4;
    text := "{\n" + lines + tailLine + Spaces(indentation) + "}";
  }

  /** Writes the statements of the block at `bound`, one line each. */
  method WriteStmtLines(b: Bodies, arena: seq<TyWithRange>, display: TyWithRange -> string, bound: nat,
                        stmts: seq<nat>, ind: nat)
    returns (lines: string)
    requires ExprsClosed(b, |arena|) && bound <= |b.exprs| && StmtsBelow(b, stmts, bound)
    ensures lines == StmtLines(RenderStmts(b, arena, display, bound, stmts, ind), |stmts|, ind)
    decreases bound, 0, 1
  {
    ghost var rs := RenderStmts(b, arena, display, bound, stmts, ind);
    lines := "";
    var idx := 0;
    while idx < |stmts|
      invariant 0 <= idx <= |stmts|
      invariant lines == StmtLines(rs, idx, ind)
    {
      var line := WriteStmt(b, arena, display, bound, stmts[idx], ind);
      lines := lines + Spaces(ind) + line + "\n";
      idx := idx + 1;
    }
  }

  /** Writes the text of statement `st` of a block at `bound`. */
  method WriteStmt(b: Bodies, arena: seq<TyWithRange>, display: TyWithRange -> string, bound: nat, st: nat, ind: nat)
    returns (text: string)
    requires ExprsClosed(b, |arena|) && bound <= |b.exprs| && StmtValueBelow(b, st, bound)
    ensures text == RenderStmt(b, arena, display, bound, st, ind)
    decreases bound, 0, 0
  {
    match b.stmts[st]
    case ExprStmt(e) =>
      var inner := WriteExpr(b, arena, display, e, ind);
      text := inner + ";";
    case LocalDefStmt(d) =>
      var value := WriteExpr(b, arena, display, b.localDefs[d].value, ind);
      text := "l" + NatToString(d) + " := " + value + ";";
    case LocalSetStmt(l) =>
      var target := if b.localSets[l].localDef.Some? then NatToString(b.localSets[l].localDef.value) else "<unknown>";
      var value := WriteExpr(b, arena, display, b.localSets[l].value, ind);
      text := "l" + target + " = " + value + ";";
  }
}
