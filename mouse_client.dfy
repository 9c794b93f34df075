/** The mouse tool's on/off rule, written as a client of the record: `--on`
    selects the single-colour effect in 0x330066 and `--off` selects no
    effect, each only when the current effect differs; the answer says
    whether the record must be written back. */
module MouseClient {
  import opened PyBytes
  import opened Glorious

  /** The colour `--on` selects. */
  const OnColour: int := 0x330066

  method SwitchOn(rec: ModelORecord) returns (update: Result<bool>)
    modifies rec
    ensures EffectOf(old(rec.raw)).Err? ==> update == Err(IndexError) && rec.raw == old(rec.raw)
    ensures EffectOf(old(rec.raw)) == Ok(SingleColour.Value()) ==> update == Ok(false) && rec.raw == old(rec.raw)
    ensures EffectOf(old(rec.raw)).Ok? && EffectOf(old(rec.raw)) != Ok(SingleColour.Value()) ==>
              update == Ok(true)
              && rec.raw == AfterSetSingleRgb(AfterSetEffect(old(rec.raw), SingleColour).bytes, OnColour).bytes
    ensures update.Ok? ==> rec.Effect() == Ok(SingleColour.Value())
    ensures update == Ok(true) && |old(rec.raw)| >= SingleRgbEnd ==>
              rec.SingleRgb() == Ok(OnColour) && |rec.raw| == |old(rec.raw)| && rec.raw[MarkerAt] == WriteCommand
  {
    var current := rec.Effect();
    if current.Err? {
      return Err(current.error);
    }
    if current.value != SingleColour.Value() {
      var _ := rec.SetEffect(SingleColour);
      ghost var afterEffect := rec.raw;
      var _ := rec.SetSingleRgb(OnColour);
      assert rec.raw[EffectAt] == afterEffect[EffectAt] by {
        var sliced := StoreSlice(afterEffect, SingleRgbAt, SingleRgbEnd, RgbToWire(OnColour));
        assert sliced[..Min(SingleRgbAt, |afterEffect|)] == afterEffect[..Min(SingleRgbAt, |afterEffect|)];
        assert sliced[EffectAt] == afterEffect[EffectAt];
      }
      update := Ok(true);
    } else {
      update := Ok(false);
    }
  }

  method SwitchOff(rec: ModelORecord) returns (update: Result<bool>)
    modifies rec
    ensures EffectOf(old(rec.raw)).Err? ==> update == Err(IndexError) && rec.raw == old(rec.raw)
    ensures EffectOf(old(rec.raw)) == Ok(Off.Value()) ==> update == Ok(false) && rec.raw == old(rec.raw)
    ensures EffectOf(old(rec.raw)).Ok? && EffectOf(old(rec.raw)) != Ok(Off.Value()) ==>
              update == Ok(true) && rec.raw == AfterSetEffect(old(rec.raw), Off).bytes
    ensures update.Ok? ==> rec.Effect() == Ok(Off.Value()) && |rec.raw| == |old(rec.raw)|
  {
    var current := rec.Effect();
    if current.Err? {
      return Err(current.error);
    }
    if current.value != Off.Value() {
      var _ := rec.SetEffect(Off);
      update := Ok(true);
    } else {
      update := Ok(false);
    }
  }
}
