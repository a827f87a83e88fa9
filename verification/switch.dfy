/** The on/off switch (components/Switch.js). The switch is controlled: it
    asks its owner for the new value and shows whatever value it is given. */
module Switch {
  import opened Common

  /** How far the thumb travels, in points. */
  const ThumbTravel := 20

  /** A press: the value handed to `onValueChange`, if it is called. */
  function HandlePress(value: bool, disabled: bool, hasOnValueChange: bool): (r: Option<bool>)
    ensures r.Some? <==> !disabled && hasOnValueChange
    ensures r.Some? ==> r.value == !value
  {
    if !disabled && hasOnValueChange then Some(!value) else None
  }

  /** Where the thumb comes to rest. */
  function ThumbOffset(value: bool): (x: int)
    ensures value ==> x == ThumbTravel
    ensures !value ==> x == 0
  {
    if value then ThumbTravel else 0
  }

  predicate TrackActive(value: bool)
  {
    value
  }

  /** The value shown after a press, for an owner that stores what it is
      handed. */
  function Pressed(value: bool, disabled: bool, hasOnValueChange: bool): (r: bool)
    ensures r != value <==> !disabled && hasOnValueChange
  {
    HandlePress(value, disabled, hasOnValueChange).GetOr(value)
  }

  /** Two presses restore the value; an enabled press moves the thumb to
      the other end and switches the track style. */
  lemma PressLaws(value: bool, disabled: bool, hasOnValueChange: bool)
    ensures Pressed(Pressed(value, disabled, hasOnValueChange), disabled, hasOnValueChange) == value
    ensures !disabled && hasOnValueChange ==>
              ThumbOffset(Pressed(value, disabled, hasOnValueChange)) == ThumbTravel - ThumbOffset(value)
              && TrackActive(Pressed(value, disabled, hasOnValueChange)) != TrackActive(value)
  {
  }
}
