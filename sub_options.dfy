/** Sub-option discovery: the `btn_sopt` buttons of a report page name the
    classifications (sub-options) a report is split into. A button counts
    only when it has both a non-empty `value` attribute and a non-empty
    label; the kept ones are listed in page order. */
module SubOptions {
  import opened Wrappers

  /** A `<button class="btn_sopt">`: its `value` attribute (None when the
      attribute is absent) and its stripped text. */
  datatype Button = Button(value: Option<string>, text: string)

  /** One classification of a report: the `subopcao` value to request and
      label (`caption`) stamped on its records. */
  datatype SubOption = SubOption(value: string, caption: string)

  /** `if value and label`. */
  predicate Qualifies(b: Button) {
    b.value.Some? && b.value.value != "" && b.text != ""
  }

  /** The sub-option a qualifying button names. */
  function SubOptionOf(b: Button): SubOption
    requires Qualifies(b)
  {
    SubOption(b.value.value, b.text)
  }

  /** The sub-options named by the qualifying buttons, in page order; each
      has a non-empty value and label. */
  function Qualified(buttons: seq<Button>): (subs: seq<SubOption>)
    ensures |subs| <= |buttons|
    ensures forall k :: 0 <= k < |subs| ==> subs[k].value != "" && subs[k].caption != ""
  {
    if buttons == [] then []
    else
      var kept := Qualified(buttons[..|buttons| - 1]);
      var last := buttons[|buttons| - 1];
      if Qualifies(last) then kept + [SubOptionOf(last)] else kept
  }

  /** A sub-option is kept exactly when some qualifying button names it, and
      the list is empty exactly when no button qualifies. */
  lemma {:induction false} QualifiedMembers(buttons: seq<Button>)
    ensures forall s :: s in Qualified(buttons) <==>
              exists i :: 0 <= i < |buttons| && Qualifies(buttons[i]) && SubOptionOf(buttons[i]) == s
    ensures Qualified(buttons) == [] <==> forall i :: 0 <= i < |buttons| ==> !Qualifies(buttons[i])
  {
    if buttons != [] {
      var init := buttons[..|buttons| - 1];
      var last := buttons[|buttons| - 1];
      QualifiedMembers(init);
      forall s
        ensures s in Qualified(buttons) <==>
                exists i :: 0 <= i < |buttons| && Qualifies(buttons[i]) && SubOptionOf(buttons[i]) == s
      {
        if s in Qualified(buttons) {
          if s in Qualified(init) {
            var i :| 0 <= i < |init| && Qualifies(init[i]) && SubOptionOf(init[i]) == s;
            assert buttons[i] == init[i];
          } else {
            assert Qualifies(last) && SubOptionOf(last) == s;
          }
        }
        if exists i :: 0 <= i < |buttons| && Qualifies(buttons[i]) && SubOptionOf(buttons[i]) == s {
          var i :| 0 <= i < |buttons| && Qualifies(buttons[i]) && SubOptionOf(buttons[i]) == s;
          if i < |init| {
            assert init[i] == buttons[i];
          }
        }
      }
      if Qualified(buttons) == [] {
        forall i | 0 <= i < |buttons| ensures !Qualifies(buttons[i]) {
          if i < |init| { assert init[i] == buttons[i]; }
        }
      }
    }
  }

  /** Discovery keeps page order: the buttons of a page split in two give the
      sub-options of the first part followed by those of the second. */
  lemma {:induction false} QualifiedAppend(front: seq<Button>, back: seq<Button>)
    ensures Qualified(front + back) == Qualified(front) + Qualified(back)
    decreases |back|
  {
    if back == [] {
      assert front + back == front;
    } else {
      var whole := front + back;
      var init := back[..|back| - 1];
      var last := back[|back| - 1];
      assert whole[..|whole| - 1] == front + init;
      assert whole[|whole| - 1] == last;
      var tail := if Qualifies(last) then [SubOptionOf(last)] else [];
      assert Qualified(whole) == Qualified(front + init) + tail;
      assert Qualified(back) == Qualified(init) + tail;
      QualifiedAppend(front, init);
    }
  }

  /** The loop of app.py that appends `{"value": value, "label": label}` for
      every button that has both. */
  method DiscoverSubOptions(buttons: seq<Button>) returns (subs: seq<SubOption>)
    ensures subs == Qualified(buttons)
  {
    subs := [];
    for i := 0 to |buttons|
      invariant subs == Qualified(buttons[..i])
    {
      var btn := buttons[i];
      assert buttons[..i + 1][..i] == buttons[..i];
      if btn.value.Some? && btn.value.value != "" && btn.text != "" {
        subs := subs + [SubOption(btn.value.value, btn.text)];
      }
    }
    assert buttons[..|buttons|] == buttons;
  }
}
