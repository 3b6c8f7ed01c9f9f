/** The field preview of a struct card (components/cards/StructCard.tsx): the first ten
    fields are listed and the rest are summarised by a "+ N more fields..." line. */
module StructCard {
  import opened Wrappers
  import opened DocTree

  const PreviewCount := 10

  /** What `getFieldsPreview` returns: the listed fields and `fields.length - 10`, which is
      negative when there are fewer than ten fields. */
  datatype FieldsPreview = FieldsPreview(preview: seq<Field>, remaining: int)

  function GetFieldsPreview(fields: seq<Field>): (r: FieldsPreview)
    ensures |r.preview| <= PreviewCount && |r.preview| <= |fields|
    ensures |r.preview| < PreviewCount ==> |r.preview| == |fields|
    ensures forall i | 0 <= i < |r.preview| :: r.preview[i] == fields[i]
    ensures r.remaining + PreviewCount == |fields|
  {
    var shown := if |fields| < PreviewCount then |fields| else PreviewCount;
    FieldsPreview(fields[..shown], |fields| - PreviewCount)
  }

  /** The card's preview: none when the struct has no field list or an empty one. */
  function StructFieldsPreview(s: Struct): (r: Option<FieldsPreview>)
    ensures r.None? <==> s.fields.None? || |s.fields.value| == 0
    ensures r.Some? ==> r.value == GetFieldsPreview(s.fields.value)
  {
    if s.fields.Some? && |s.fields.value| > 0 then Some(GetFieldsPreview(s.fields.value)) else None
  }

  /** The count on the "+ N more fields..." line, which is only shown for a positive N. */
  function MoreFields(p: FieldsPreview): (r: Option<nat>)
    ensures r.Some? <==> p.remaining > 0
    ensures r.Some? ==> r.value == p.remaining
  {
    if p.remaining > 0 then Some(p.remaining) else None
  }

  /** The listed fields followed by the hidden ones are exactly the struct's fields, and the
      "more" line counts the hidden ones: it appears exactly when some field is not listed. */
  lemma PreviewAccountsForAll(fields: seq<Field>)
    ensures var p := GetFieldsPreview(fields);
            && p.preview + fields[|p.preview|..] == fields
            && (MoreFields(p).Some? <==> |p.preview| < |fields|)
            && (MoreFields(p).Some? ==> MoreFields(p).value == |fields[|p.preview|..]|)
  {
    var p := GetFieldsPreview(fields);
    assert p.preview == fields[..|p.preview|];
  }

  /** Over a whole card: the field rows shown plus the count of the "more" line equal the
      number of fields the struct declares, an absent list counting as none. */
  lemma CardShowsEveryField(s: Struct)
    ensures var shown := match StructFieldsPreview(s) case None => 0 case Some(p) => |p.preview|;
            var more := match StructFieldsPreview(s) case None => 0 case Some(p) => MoreFields(p).GetOr(0);
            shown + more == |s.fields.GetOr([])|
  {
    if StructFieldsPreview(s).Some? {
      PreviewAccountsForAll(s.fields.value);
    }
  }
}
