/**
 * The trigger definition model: a builder that collects and normalises the
 * twelve fields of a database trigger, and the trigger record it builds,
 * whose identity is its name and whose only mutable field is its description.
 */
module TriggerModel {
  import opened JavaStrings
  import opened PriorityFormat

  /** The four canonical action kinds, in declaration order, with their texts. */
  datatype TriggerAction = Print | Reject | InvalidateTransaction | OtherStatement
  {
    /** The texts are upper-case SQL keywords: letters and spaces only. */
    function Text(): (r: string)
      ensures r != [] && forall i :: 0 <= i < |r| ==> 'A' <= r[i] <= 'Z' || r[i] == ' '
    {
      match this
      case Print => "PRINT"
      case Reject => "REJECT"
      case InvalidateTransaction => "INVALIDATE TRANSACTION"
      case OtherStatement => "OTHER STATEMENT"
    }

    /**
     * `TriggerAction.eval`: the constant whose text equals `text`, found by a
     * scan over the constants in declaration order, or null when none matches.
     */
    static method Eval(text: Option<string>) returns (r: Option<TriggerAction>)
      ensures forall k: TriggerAction :: r == Some(k) <==> text == Some(k.Text())
    {
      for i := 0 to |ActionValues|
        invariant forall j :: 0 <= j < i ==> text != Some(ActionValues[j].Text())
      {
        var a := ActionValues[i];
        if Some(a.Text()) == text {
          TextInjective();
          return Some(a);
        }
      }
      forall k: TriggerAction ensures text != Some(k.Text()) {
        var j := Ordinal(k);
      }
      return None;
    }
  }

  /** `TriggerAction.values()`. */
  const ActionValues: seq<TriggerAction> := [Print, Reject, InvalidateTransaction, OtherStatement]

  /** `TriggerAction.ordinal()`: the position of a constant in `values()`. */
  function Ordinal(k: TriggerAction): (i: nat)
    ensures i < |ActionValues| && ActionValues[i] == k
  {
    match k
    case Print => 0
    case Reject => 1
    case InvalidateTransaction => 2
    case OtherStatement => 3
  }

  /** The four texts are pairwise distinct, so a text names at most one constant. */
  lemma TextInjective()
    ensures forall a: TriggerAction, b: TriggerAction :: a.Text() == b.Text() ==> a == b
  {
    forall a: TriggerAction, b: TriggerAction | a.Text() == b.Text() ensures a == b {
      assert a.Text()[0] == b.Text()[0];
      if a.Text()[0] == 'I' {
        assert |a.Text()| == |b.Text()|;
      }
    }
  }

  // ---------------------------------------------------------------------------
  // Condition

  /** After ASCII lower-casing, the text starts with the keyword `if ` (one space). */
  predicate StartsWithIfKeyword(t: string) {
    StartsWith(LowerAsciiString(t), "if ")
  }

  /**
   * `Builder.condition` on a non-null text: trim it, then drop exactly three
   * characters when the trimmed text starts with `if ` in any letter case.
   * The result is a suffix of the trimmed text, three characters shorter
   * exactly when the keyword was there.
   */
  function NormalizeCondition(c: string): (r: string)
    ensures var t := Trim(c);
      |r| <= |t| && r == t[|t| - |r|..] &&
      (|t| - |r| == 3 <==> StartsWithIfKeyword(t)) &&
      (|t| - |r| == 0 <==> !StartsWithIfKeyword(t))
  {
    var t := Trim(c);
    if |t| > 0 && StartsWithIfKeyword(t) then t[3..] else t
  }

  /**
   * Surrounding trimmable characters go, one keyword `if ` (any case) goes;
   * what follows the keyword is kept with its own leading blanks.
   */
  lemma ConditionDropsKeyword(pre: string, i: char, f: char, x: string, post: string)
    requires i == 'i' || i == 'I'
    requires f == 'f' || f == 'F'
    requires x != [] && !IsTrimmable(x[|x| - 1])
    requires AllTrimmable(pre) && AllTrimmable(post)
    ensures NormalizeCondition(pre + [i, f, ' '] + x + post) == x
  {
    var core := [i, f, ' '] + x;
    assert pre + [i, f, ' '] + x + post == pre + core + post;
    assert IsTrimmed(core);
    TrimSurrounded(pre, core, post);
    IfKeywordAhead(i, f, x);
    assert core[3..] == x;
  }

  lemma IfKeywordAhead(i: char, f: char, x: string)
    requires i == 'i' || i == 'I'
    requires f == 'f' || f == 'F'
    ensures StartsWithIfKeyword([i, f, ' '] + x)
  {
    var low := LowerAsciiString([i, f, ' '] + x);
    assert low[0] == 'i' && low[1] == 'f' && low[2] == ' ';
    assert low[..3] == "if ";
  }

  /** The keyword test is exactly `i`, `f` in either case, then a space. */
  lemma IfKeywordIff(t: string)
    ensures StartsWithIfKeyword(t) <==>
      |t| >= 3 && (t[0] == 'i' || t[0] == 'I') && (t[1] == 'f' || t[1] == 'F') && t[2] == ' '
  {
    var low := LowerAsciiString(t);
    if |t| >= 3 {
      assert low[..3] == "if " <==> low[0] == 'i' && low[1] == 'f' && low[2] == ' ';
    }
  }

  /** `condition("if you")` stores `"you"`, as `TriggerTest` expects. */
  lemma ConditionOfIfYou()
    ensures NormalizeCondition("if you") == "you"
    ensures NormalizeCondition(" if you ") == "you"
  {
    ConditionDropsKeyword([], 'i', 'f', "you", []);
    assert [] + ['i', 'f', ' '] + "you" + [] == "if you";
    ConditionDropsKeyword(" ", 'i', 'f', "you", " ");
    assert " " + ['i', 'f', ' '] + "you" + " " == " if you ";
  }

  /** The remainder is not trimmed again, and only one keyword is removed. */
  lemma ConditionStripsOnce()
    ensures NormalizeCondition("if  x") == " x"
    ensures NormalizeCondition("IF if x") == "if x" && StartsWithIfKeyword(NormalizeCondition("IF if x"))
  {
    ConditionDropsKeyword([], 'i', 'f', " x", []);
    assert [] + ['i', 'f', ' '] + " x" + [] == "if  x";
    ConditionDropsKeyword([], 'I', 'F', "if x", []);
    assert [] + ['I', 'F', ' '] + "if x" + [] == "IF if x";
    assert LowerAsciiString("if x")[..3] == "if ";
  }

  // ---------------------------------------------------------------------------
  // Action

  /** The text left once every `PRINT` is deleted and the rest is trimmed. */
  function PrintRemainder(a: string): string {
    Trim(RemoveAll(a, Print.Text()))
  }

  /** The source can cut one character from each end of the remainder. */
  predicate PrintMessageDefined(a: string) {
    |PrintRemainder(a)| >= 2
  }

  /** The message of a `PRINT` action: the remainder without its first and last character. */
  function PrintMessage(a: string): (m: string)
    requires PrintMessageDefined(a)
    ensures |m| + 2 == |PrintRemainder(a)| <= |a|
  {
    var q := PrintRemainder(a);
    q[1..|q| - 1]
  }

  /** What `Builder.action` demands: a text starting with `PRINT` leaves a remainder of two or more characters. */
  predicate ActionAccepted(a: Option<string>) {
    a.Some? && StartsWith(a.value, Print.Text()) ==> PrintMessageDefined(a.value)
  }

  /** The action type and stored action that one call of `Builder.action` leaves behind. */
  datatype ActionSetting = ActionSetting(kind: TriggerAction, action: Option<string>)

  /** The three keywords start with different letters, so at most one of them prefixes a text. */
  lemma KeywordsExclusive(a: string)
    ensures StartsWith(a, Reject.Text()) ==> !StartsWith(a, InvalidateTransaction.Text()) && !StartsWith(a, Print.Text())
    ensures StartsWith(a, InvalidateTransaction.Text()) ==> !StartsWith(a, Print.Text())
  {
    if StartsWith(a, Reject.Text()) { assert a[0] == a[..6][0] == 'R'; }
    if StartsWith(a, InvalidateTransaction.Text()) { assert a[0] == a[..22][0] == 'I'; }
  }

  /**
   * `Builder.action`: prefixes are tested on the raw text, case-sensitively.
   * `REJECT` and `INVALIDATE TRANSACTION` clear the stored action, `PRINT`
   * stores its message, and anything else, null included, is an
   * `OTHER STATEMENT` stored verbatim.
   */
  function ClassifyAction(a: Option<string>): (s: ActionSetting)
    requires ActionAccepted(a)
    ensures s.kind == Reject <==> a.Some? && StartsWith(a.value, Reject.Text())
    ensures s.kind == InvalidateTransaction <==> a.Some? && StartsWith(a.value, InvalidateTransaction.Text())
    ensures s.kind == Print <==> a.Some? && StartsWith(a.value, Print.Text())
    ensures s.kind == Reject || s.kind == InvalidateTransaction ==> s.action == None
    ensures s.kind == Print ==> s.action == Some(PrintMessage(a.value))
    ensures s.kind == OtherStatement ==> s.action == a
  {
    KeywordsExclusive(if a.Some? then a.value else []);
    if a.Some? && StartsWith(a.value, Reject.Text()) then ActionSetting(Reject, None)
    else if a.Some? && StartsWith(a.value, InvalidateTransaction.Text()) then ActionSetting(InvalidateTransaction, None)
    else if a.Some? && StartsWith(a.value, Print.Text()) then ActionSetting(Print, Some(PrintMessage(a.value)))
    else ActionSetting(OtherStatement, a)
  }

  /** A text without the letter `P` holds no `PRINT`. */
  lemma {:induction false} NoPrintWithoutP(s: string)
    requires forall k :: 0 <= k < |s| ==> s[k] != 'P'
    ensures !Occurs(s, Print.Text())
  {
    if s != [] {
      if |s| >= 5 { assert s[..5][0] == s[0]; }
      NoPrintWithoutP(s[1..]);
    }
  }

  /** `REJECT` followed by anything clears the stored action. */
  lemma RejectDecides(rest: string)
    ensures var a := Some(Reject.Text() + rest);
      ActionAccepted(a) && ClassifyAction(a) == ActionSetting(Reject, None)
  {
    var a := Reject.Text() + rest;
    assert a[..6] == Reject.Text();
    KeywordsExclusive(a);
  }

  /** `INVALIDATE TRANSACTION` followed by anything clears the stored action. */
  lemma InvalidateDecides(rest: string)
    ensures var a := Some(InvalidateTransaction.Text() + rest);
      ActionAccepted(a) && ClassifyAction(a) == ActionSetting(InvalidateTransaction, None)
  {
    var a := InvalidateTransaction.Text() + rest;
    assert a[..22] == InvalidateTransaction.Text();
    assert a[0] == 'I';
    KeywordsExclusive(a);
  }

  /**
   * A message between two delimiters after `PRINT` and optional blanks comes
   * back exactly, as long as that text holds no `PRINT` of its own (every
   * occurrence would be deleted).
   */
  lemma PrintRoundTrip(gap: string, open: char, msg: string, close: char)
    requires AllTrimmable(gap) && !IsTrimmable(open) && !IsTrimmable(close)
    requires !Occurs(gap + [open] + msg + [close], Print.Text())
    ensures var a := Some(Print.Text() + gap + [open] + msg + [close]);
      ActionAccepted(a) && ClassifyAction(a) == ActionSetting(Print, Some(msg))
  {
    var w := [open] + msg + [close];
    var a := Print.Text() + gap + [open] + msg + [close];
    assert a == Print.Text() + (gap + w);
    assert gap + [open] + msg + [close] == gap + w;
    RemoveAllLeadingPattern(Print.Text(), gap + w);
    RemoveAllWithoutOccurrence(gap + w, Print.Text());
    assert RemoveAll(a, Print.Text()) == gap + w;
    TrimSurrounded(gap, w, []);
    assert gap + w + [] == gap + w;
    assert w[1..|w| - 1] == msg;
    assert a[..5] == Print.Text();
    KeywordsExclusive(a);
  }

  /** `action("PRINT 'hello'")` stores `hello`. */
  lemma PrintHello()
    ensures ActionAccepted(Some("PRINT 'hello'"))
    ensures ClassifyAction(Some("PRINT 'hello'")) == ActionSetting(Print, Some("hello"))
  {
    assert !Occurs(" " + ['\''] + "hello" + ['\''], Print.Text()) by {
      assert " " + ['\''] + "hello" + ['\''] == " 'hello'";
      NoPrintWithoutP(" 'hello'");
    }
    assert AllTrimmable(" ");
    PrintRoundTrip(" ", '\'', "hello", '\'');
    assert Print.Text() + " " + ['\''] + "hello" + ['\''] == "PRINT 'hello'";
  }

  /** `action("PRINT12")` stores the empty text, as `TriggerTest` expects. */
  lemma PrintTwelve()
    ensures ActionAccepted(Some("PRINT12"))
    ensures ClassifyAction(Some("PRINT12")) == ActionSetting(Print, Some(""))
  {
    assert [] + ['1'] + [] + ['2'] == "12";
    NoPrintWithoutP("12");
    assert AllTrimmable([]);
    PrintRoundTrip([], '1', [], '2');
    assert Print.Text() + [] + ['1'] + [] + ['2'] == "PRINT12";
  }

  /**
   * Every `PRINT` is deleted, also one inside the message: for instance
   * `PRINT 'PRINTER'` stores `ER`.
   */
  lemma PrintInsideMessageIsDeleted(open: char, before: string, after: string, close: char)
    requires !IsTrimmable(open) && !IsTrimmable(close) && open != 'P' && close != 'P'
    requires forall k :: 0 <= k < |before| ==> before[k] != 'P'
    requires forall k :: 0 <= k < |after| ==> after[k] != 'P'
    ensures var a := Some(Print.Text() + " " + [open] + before + Print.Text() + after + [close]);
      ActionAccepted(a) && ClassifyAction(a) == ActionSetting(Print, Some(before + after))
  {
    var p := Print.Text();
    var a := p + " " + [open] + before + p + after + [close];
    var w := [open] + before + after + [close];
    InnerPrintDeleted(open, before, after, close);
    assert AllTrimmable([' ']);
    TrimSurrounded([' '], w, []);
    assert [' '] + w + [] == [' '] + w;
    assert w[1..|w| - 1] == before + after;
    assert a[..5] == p;
    KeywordsExclusive(a);
  }

  lemma InnerPrintDeleted(open: char, before: string, after: string, close: char)
    requires open != 'P' && close != 'P'
    requires forall k :: 0 <= k < |before| ==> before[k] != 'P'
    requires forall k :: 0 <= k < |after| ==> after[k] != 'P'
    ensures RemoveAll(Print.Text() + " " + [open] + before + Print.Text() + after + [close], Print.Text())
      == [' '] + ([open] + before + after + [close])
  {
    var p := Print.Text();
    var x := [' ', open] + before;
    var y := after + [close];
    SplitShape(p, open, before, after, close);
    assert RemoveAll(p + (x + (p + y)), p) == RemoveAll(x + (p + y), p) by {
      RemoveAllLeadingPattern(p, x + (p + y));
    }
    assert RemoveAll(x + (p + y), p) == x + RemoveAll(p + y, p) by {
      RemoveAllKeepsPrefix(x, p + y, p);
    }
    assert RemoveAll(p + y, p) == y by {
      RemoveAllLeadingPattern(p, y);
      RemoveAllKeepsPrefix(y, [], p);
      assert y + [] == y;
    }
    ConcatShape(open, before, after, close);
  }

  /** Regroupings kept apart so that the sequence reasoning of `InnerPrintDeleted` stays small. */
  lemma SplitShape(p: string, open: char, before: string, after: string, close: char)
    ensures p + " " + [open] + before + p + after + [close] == p + (([' ', open] + before) + (p + (after + [close])))
  {
  }

  lemma ConcatShape(open: char, before: string, after: string, close: char)
    ensures ([' ', open] + before) + (after + [close]) == [' '] + ([open] + before + after + [close])
  {
  }

  /** The three actions of `TriggerTest`: the keyword decides whatever follows it. */
  lemma ActionsOfTest()
    ensures ActionAccepted(Some("REJECT1")) && ClassifyAction(Some("REJECT1")) == ActionSetting(Reject, None)
    ensures ActionAccepted(Some("INVALIDATE TRANSACTION1"))
    ensures ClassifyAction(Some("INVALIDATE TRANSACTION1")) == ActionSetting(InvalidateTransaction, None)
    ensures ActionAccepted(Some("PRINT12")) && ClassifyAction(Some("PRINT12")) == ActionSetting(Print, Some(""))
  {
    RejectDecides("1");
    assert Reject.Text() + "1" == "REJECT1";
    InvalidateDecides("1");
    assert InvalidateTransaction.Text() + "1" == "INVALIDATE TRANSACTION1";
    PrintTwelve();
  }

  /** A text that starts with none of the keywords, and null, are other statements kept as they are. */
  lemma OtherStatements()
    ensures ActionAccepted(Some("update foo set x=1"))
    ensures ClassifyAction(Some("update foo set x=1")) == ActionSetting(OtherStatement, Some("update foo set x=1"))
    ensures ClassifyAction(None) == ActionSetting(OtherStatement, None)
  {
    assert "update foo set x=1"[0] == 'u';
  }

  // ---------------------------------------------------------------------------
  // Builder and trigger

  /** The twelve fields shared by `Trigger.Builder` and `Trigger`; null is `None`. */
  datatype TriggerFields = TriggerFields(
    name: Option<string>,
    conditionTime: Option<string>,
    eventType: Option<string>,
    targetClass: Option<string>,
    targetAttribute: Option<string>,
    condition: Option<string>,
    actionTime: Option<string>,
    actionType: Option<string>,
    action: Option<string>,
    status: Option<string>,
    priority: Option<string>,
    description: Option<string>)

  /** A fresh builder: every field null. */
  const Unset := TriggerFields(None, None, None, None, None, None, None, None, None, None, None, None)

  /** What `Builder.priority` stores for a non-null text. */
  function StoredPriority(p: string): (r: string)
    requires ParsesAsDouble(p) ==> InFormatDomain(p)
    ensures ParsesAsDouble(p) ==> InFormatDomain(r) && IntegerValue(r) == IntegerValue(p) && r == FormatPriority(r)
    ensures !ParsesAsDouble(p) ==> r == p
  {
    if ParsesAsDouble(p) then
      FormatPriorityIdempotent(p);
      FormatPriority(p)
    else p
  }

  /** Storing a stored priority again changes nothing. */
  lemma StoredPriorityIdempotent(p: string)
    requires ParsesAsDouble(p) ==> InFormatDomain(p)
    ensures var r := StoredPriority(p); (ParsesAsDouble(r) ==> InFormatDomain(r)) && StoredPriority(r) == r
  {
    if ParsesAsDouble(p) {
      InFormatDomainParses(StoredPriority(p));
    }
  }

  /** `priority("2")` stores `"02.00"`; `priority("abc")` stores `"abc"`. */
  lemma StoredPriorityExamples()
    ensures (ParsesAsDouble("2") ==> InFormatDomain("2")) && StoredPriority("2") == "02.00"
    ensures (ParsesAsDouble("abc") ==> InFormatDomain("abc")) && StoredPriority("abc") == "abc"
  {
    FormatPriorityOfTwo();
    InFormatDomainParses("2");
    AbcDoesNotParse();
  }

  /** `Trigger.Builder`: twelve nullable fields set by chained setters. */
  class Builder {
    var name: Option<string>
    var conditionTime: Option<string>
    var eventType: Option<string>
    var targetClass: Option<string>
    var targetAttribute: Option<string>
    var condition: Option<string>
    var actionTime: Option<string>
    var actionType: Option<string>
    var action: Option<string>
    var status: Option<string>
    var priority: Option<string>
    var description: Option<string>

    function Fields(): TriggerFields
      reads this
    {
      TriggerFields(name, conditionTime, eventType, targetClass, targetAttribute, condition,
                    actionTime, actionType, action, status, priority, description)
    }

    constructor ()
      ensures Fields() == Unset
    {
      name, conditionTime, eventType, targetClass := None, None, None, None;
      targetAttribute, condition, actionTime, actionType := None, None, None, None;
      action, status, priority, description := None, None, None, None;
    }

    method Name(s: Option<string>)
      modifies this
      ensures Fields() == old(Fields()).(name := s)
    {
      name := s;
    }

    method ConditionTime(s: Option<string>)
      modifies this
      ensures Fields() == old(Fields()).(conditionTime := s)
    {
      conditionTime := s;
    }

    method EventType(s: Option<string>)
      modifies this
      ensures Fields() == old(Fields()).(eventType := s)
    {
      eventType := s;
    }

    method TargetClass(s: Option<string>)
      modifies this
      ensures Fields() == old(Fields()).(targetClass := s)
    {
      targetClass := s;
    }

    method TargetAttribute(s: Option<string>)
      modifies this
      ensures Fields() == old(Fields()).(targetAttribute := s)
    {
      targetAttribute := s;
    }

    /** A null condition keeps what was stored; any other is normalised. */
    method Condition(c: Option<string>)
      modifies this
      ensures c.None? ==> Fields() == old(Fields())
      ensures c.Some? ==> Fields() == old(Fields()).(condition := Some(NormalizeCondition(c.value)))
    {
      if c.None? {
        return;
      }
      var t := Trim(c.value);
      if |t| > 0 && StartsWithIfKeyword(t) {
        t := t[3..];
      }
      condition := Some(t);
    }

    method ActionTime(s: Option<string>)
      modifies this
      ensures Fields() == old(Fields()).(actionTime := s)
    {
      actionTime := s;
    }

    method ActionType(s: Option<string>)
      modifies this
      ensures Fields() == old(Fields()).(actionType := s)
    {
      actionType := s;
    }

    /**
     * Overwrites both the action type and the action, whatever they held:
     * the last call wins, also over an earlier `ActionType`.
     */
    method Action(a: Option<string>)
      requires ActionAccepted(a)
      modifies this
      ensures Fields() == old(Fields()).(actionType := Some(ClassifyAction(a).kind.Text()),
                                         action := ClassifyAction(a).action)
    {
      var found := false;
      if a.Some? {
        KeywordsExclusive(a.value);
        if StartsWith(a.value, Reject.Text()) {
          actionType := Some(Reject.Text());
          action := None;
          found := true;
        } else if StartsWith(a.value, InvalidateTransaction.Text()) {
          actionType := Some(InvalidateTransaction.Text());
          action := None;
          found := true;
        } else if StartsWith(a.value, Print.Text()) {
          actionType := Some(Print.Text());
          var message := Trim(RemoveAll(a.value, Print.Text()));
          message := message[1..|message| - 1];
          action := Some(message);
          found := true;
        }
      }
      if !found {
        actionType := Some(OtherStatement.Text());
        action := a;
      }
    }

    method Status(s: Option<string>)
      modifies this
      ensures Fields() == old(Fields()).(status := s)
    {
      status := s;
    }

    /** A number is stored formatted, any other text as it is. */
    method Priority(p: string)
      requires ParsesAsDouble(p) ==> InFormatDomain(p)
      modifies this
      ensures Fields() == old(Fields()).(priority := Some(StoredPriority(p)))
    {
      if ParsesAsDouble(p) {
        priority := Some(FormatPriority(p));
      } else {
        priority := Some(p);
      }
    }

    /** A null description keeps what was stored. */
    method Description(d: Option<string>)
      modifies this
      ensures d.None? ==> Fields() == old(Fields())
      ensures d.Some? ==> Fields() == old(Fields()).(description := d)
    {
      if d.None? {
        return;
      }
      description := d;
    }

    /** A new trigger holding every field of the builder unchanged. */
    method Build() returns (t: Trigger)
      ensures fresh(t) && t.Fields() == Fields()
    {
      t := new Trigger.FromBuilder(this);
    }
  }

  /** `Trigger`: eleven final fields and the mutable description. */
  class Trigger {
    const name: Option<string>
    const conditionTime: Option<string>
    const eventType: Option<string>
    const targetClass: Option<string>
    const targetAttribute: Option<string>
    const condition: Option<string>
    const actionTime: Option<string>
    const actionType: Option<string>
    const action: Option<string>
    const status: Option<string>
    const priority: Option<string>
    var description: Option<string>

    function Fields(): TriggerFields
      reads this
    {
      TriggerFields(name, conditionTime, eventType, targetClass, targetAttribute, condition,
                    actionTime, actionType, action, status, priority, description)
    }

    /** The private constructor: copies every field of the builder. */
    constructor FromBuilder(b: Builder)
      ensures Fields() == b.Fields()
    {
      name := b.name;
      conditionTime := b.conditionTime;
      eventType := b.eventType;
      targetClass := b.targetClass;
      targetAttribute := b.targetAttribute;
      condition := b.condition;
      actionTime := b.actionTime;
      actionType := b.actionType;
      action := b.action;
      status := b.status;
      priority := b.priority;
      description := b.description;
    }

    /** Assigns the description, null included; nothing else changes. */
    method SetDescription(d: Option<string>)
      modifies this
      ensures Fields() == old(Fields()).(description := d)
    {
      description := d;
    }

    /** `compareTo`: the names decide, by `String.compareTo`. */
    function CompareTo(obj: Trigger): (r: int)
      requires name.Some? && obj.name.Some?
      ensures r == 0 <==> name == obj.name
    {
      CompareZeroIff(name.value, obj.name.value);
      CompareStrings(name.value, obj.name.value)
    }

    /** `equals`: another trigger with the same name; never null, never another class. */
    function Equals(obj: object?): (r: bool)
      requires obj is Trigger ==> name.Some?
      ensures obj == this ==> r
      ensures r ==> obj != null && obj is Trigger
      ensures obj is Trigger ==> (r <==> (obj as Trigger).name == name)
    {
      obj is Trigger && (obj as Trigger).name == name
    }

    /** `hashCode`: the name's hash, with `String.hashCode` as a parameter. */
    function HashCode(stringHash: string -> int): (r: int)
      requires name.Some?
      ensures r == stringHash(name.value)
    {
      stringHash(name.value)
    }
  }

  /** Equal triggers hash alike, whatever the string hash is. */
  lemma EqualTriggersHashAlike(a: Trigger, b: Trigger, stringHash: string -> int)
    requires a.name.Some? && a.Equals(b)
    ensures b.name.Some? && a.HashCode(stringHash) == b.HashCode(stringHash)
  {
  }

  /** `compareTo` agrees with `equals` and orders triggers by name transitively. */
  lemma CompareToOrdersByName(a: Trigger, b: Trigger, c: Trigger)
    requires a.name.Some? && b.name.Some? && c.name.Some?
    ensures a.CompareTo(b) == 0 <==> a.Equals(b)
    ensures a.CompareTo(b) == -b.CompareTo(a)
    ensures a.CompareTo(b) < 0 && b.CompareTo(c) < 0 ==> a.CompareTo(c) < 0
  {
    CompareAntisymmetric(a.name.value, b.name.value);
    if a.CompareTo(b) < 0 && b.CompareTo(c) < 0 {
      CompareTransitive(a.name.value, b.name.value, c.name.value);
    }
  }

  /** `equals` is symmetric. */
  lemma EqualsSymmetric(a: Trigger, b: Trigger)
    requires a.name.Some? && b.name.Some?
    ensures a.Equals(b) <==> b.Equals(a)
  {
  }

  /** `equals` with null or with an object of another class is false, even for a trigger without a name. */
  lemma EqualsOtherClass(t: Trigger, obj: object?)
    requires !(obj is Trigger)
    ensures !t.Equals(obj)
  {
  }

  /** Two triggers built with the same name are equal and hash alike, whatever else differs. */
  lemma SameNameSameIdentity(a: Trigger, b: Trigger, stringHash: string -> int)
    requires a.name.Some? && a.name == b.name
    ensures a.Equals(b) && b.Equals(a) && a.HashCode(stringHash) == b.HashCode(stringHash)
    ensures a.CompareTo(b) == 0
  {
  }

  /**
   * The second half of `TriggerTest`: a null condition, three actions
   * in a row and a numeric priority, then `build()`; the first half's
   * identity checks hold of the result.
   */
  method TriggerTestScenario() returns (t: Trigger)
    ensures t.Fields() == TriggerFields(
      Some("name"), Some("conditionTime"), Some("eventType"), Some("targetClass"),
      Some("targetAttribute"), Some("you"), Some("actionTime"), Some("PRINT"), Some(""),
      Some("status"), Some("02.00"), None)
    ensures t.Equals(t) && !t.Equals(null) && t.CompareTo(t) == 0
  {
    ConditionOfIfYou();
    ActionsOfTest();
    StoredPriorityExamples();
    var b := new Builder();
    b.Name(Some("name"));
    b.ConditionTime(Some("conditionTime"));
    b.EventType(Some("eventType"));
    b.TargetClass(Some("targetClass"));
    b.TargetAttribute(Some("targetAttribute"));
    b.Condition(None);
    b.Condition(Some("if you"));
    b.ActionTime(Some("actionTime"));
    b.ActionType(Some("actionType"));
    b.Action(Some("REJECT1"));
    b.Action(Some("INVALIDATE TRANSACTION1"));
    b.Action(Some("PRINT12"));
    b.Status(Some("status"));
    b.Priority("2");
    t := b.Build();
  }
}
