/** Lists that must not repeat themselves, checked by the size of the set of their elements. */
module Uniqueness {
  import opened Errors

  ghost predicate IsDistinct<T>(values: seq<T>) {
    forall i, j | 0 <= i < j < |values| :: values[i] != values[j]
  }

  function ToSet<T(==)>(values: seq<T>): set<T> {
    set x | x in values
  }

  /** The set of a list is as large as the list exactly when no element repeats. */
  lemma {:induction false} SetSizeTells<T>(values: seq<T>)
    ensures |ToSet(values)| <= |values|
    ensures |ToSet(values)| == |values| <==> IsDistinct(values)
  {
    if values != [] {
      var n := |values| - 1;
      var front, last := values[..n], values[n];
      assert values == front + [last];
      SetSizeTells(front);
      assert ToSet(values) == ToSet(front) + {last};
      if last in front {
        assert ToSet(values) == ToSet(front);
        var i :| 0 <= i < n && front[i] == last;
        assert values[i] == values[n];
      } else {
        assert forall i | 0 <= i < n :: values[i] == front[i] && front[i] in front;
      }
    }
  }

  // ---- sender channels and members -----------------------------------------------------

  datatype Channel = Sms | Rcs | Email | Whatsapp | Push

  datatype ChannelControls = ChannelControls(filterIn: seq<Channel>, priority: seq<(Channel, nat)>)

  function Channels(priority: seq<(Channel, nat)>): (r: seq<Channel>)
    ensures |r| == |priority| && forall i | 0 <= i < |r| :: r[i] == priority[i].0
  {
    seq(|priority|, i requires 0 <= i < |priority| => priority[i].0)
  }

  function ValidateControls(c: ChannelControls): Result<()> {
    if |ToSet(c.filterIn)| != |c.filterIn| || |ToSet(Channels(c.priority))| != |c.priority|
    then Err(InvalidRequest) else Ok(())
  }

  lemma AtMostFiveChannels(s: set<Channel>)
    ensures |s| <= 5
  {
    var all := {Sms, Rcs, Email, Whatsapp, Push};
    assert s <= all by {
      forall c | c in s
        ensures c in all
      {
        match c case Sms => case Rcs => case Email => case Whatsapp => case Push =>
      }
    }
    SubsetIsSmaller(s, all);
  }

  lemma {:induction false} SubsetIsSmaller<T>(a: set<T>, b: set<T>)
    requires a <= b
    ensures |a| <= |b|
  {
    assert |b| == |b - a| + |a| by {
      assert b == (b - a) + a && (b - a) !! a;
    }
  }

  /** Controls pass exactly when neither list repeats a channel; then each has at most five entries. */
  lemma ControlsExactly(c: ChannelControls)
    ensures ValidateControls(c).Ok? <==> IsDistinct(c.filterIn) && IsDistinct(Channels(c.priority))
    ensures ValidateControls(c).Ok? ==> |c.filterIn| <= 5 && |c.priority| <= 5
  {
    SetSizeTells(c.filterIn);
    SetSizeTells(Channels(c.priority));
    AtMostFiveChannels(ToSet(c.filterIn));
    AtMostFiveChannels(ToSet(Channels(c.priority)));
  }

  predicate IsIdChar(c: char) {
    '0' <= c <= '9' || ('a' <= c <= 'z' && c != 'i' && c != 'l' && c != 'o' && c != 'u')
  }

  predicate IsValidId(value: string, prefix: string) {
    && prefix <= value
    && var suffix := value[|prefix|..];
    && 26 <= |suffix| <= 35
    && '0' <= suffix[0] <= '7'
    && forall i | 0 <= i < |suffix| :: IsIdChar(suffix[i])
  }

  function ValidateSenderMembers(ids: seq<string>): Result<()> {
    if |ids| == 0 || |ids| > 1000 then Err(InvalidRequest)
    else if |ToSet(ids)| != |ids| then Err(InvalidRequest)
    else if exists i | 0 <= i < |ids| :: !IsValidId(ids[i], "comms_sender_") then Err(InvalidRequest)
    else Ok(())
  }

  lemma SenderMembersExactly(ids: seq<string>)
    ensures ValidateSenderMembers(ids).Ok? <==>
      1 <= |ids| <= 1000 && IsDistinct(ids) && forall i | 0 <= i < |ids| :: IsValidId(ids[i], "comms_sender_")
  {
    hide IsValidId;
    SetSizeTells(ids);
  }

  // ---- inline modules of a message ------------------------------------------------------

  datatype ModuleKind = SmsModule | RcsModule

  datatype InlineModule = InlineModule(kind: ModuleKind, error: Option<Error>)

  predicate AcceptsModules(modules: seq<InlineModule>) {
    && 1 <= |modules| <= 4
    && (forall i, j | 0 <= i < j < |modules| :: modules[i].kind != modules[j].kind)
    && forall i | 0 <= i < |modules| :: modules[i].error.None?
  }

  /** All before module `i` is accepted, and it repeats a kind or else is not valid itself. */
  predicate IsFirstFault(modules: seq<InlineModule>, i: nat, error: Error)
    requires i < |modules|
  {
    && (forall j, k | 0 <= j < k < i :: modules[j].kind != modules[k].kind)
    && (forall j | 0 <= j < i :: modules[j].error.None?)
    && if exists j | 0 <= j < i :: modules[j].kind == modules[i].kind then error == InvalidRequest
       else modules[i].error == Some(error)
  }

  /** The loop inserts each kind into a set and stops at the first that is in it. */
  method ValidateInline(modules: seq<InlineModule>) returns (r: Result<()>)
    ensures r.Ok? <==> AcceptsModules(modules)
    ensures r.Err? && 1 <= |modules| <= 4 ==> exists i | 0 <= i < |modules| :: IsFirstFault(modules, i, r.error)
    ensures r.Err? && !(1 <= |modules| <= 4) ==> r.error == InvalidRequest
  {
    if !(1 <= |modules| <= 4) {
      return Err(InvalidRequest);
    }
    var kinds: set<ModuleKind> := {};
    for i := 0 to |modules|
      invariant forall k :: k in kinds <==> exists j | 0 <= j < i :: modules[j].kind == k
      invariant forall j, k | 0 <= j < k < i :: modules[j].kind != modules[k].kind
      invariant forall j | 0 <= j < i :: modules[j].error.None?
    {
      if modules[i].kind in kinds {
        assert IsFirstFault(modules, i, InvalidRequest);
        return Err(InvalidRequest);
      }
      kinds := kinds + {modules[i].kind};
      if modules[i].error.Some? {
        assert IsFirstFault(modules, i, modules[i].error.value);
        return Err(modules[i].error.value);
      }
    }
    r := Ok(());
  }

  /** Up to four modules are let in by number, but only two kinds exist. */
  lemma AtMostTwoModules(modules: seq<InlineModule>)
    requires AcceptsModules(modules)
    ensures |modules| <= 2
  {
    if |modules| > 2 {
      ThreeKindsRepeat(modules[0].kind, modules[1].kind, modules[2].kind);
    }
  }

  lemma ThreeKindsRepeat(a: ModuleKind, b: ModuleKind, c: ModuleKind)
    ensures a == b || b == c || a == c
  {
  }
}
