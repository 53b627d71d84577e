/** Which kind of icon a menu row renders, if any. */
module MenuItemIcon {
  import opened Options

  /** The two rendering strategies of the icon component. */
  datatype IconType = SVG | IconFont

  /** The `icon` prop: absent (`undefined`/`null`), a string naming a font
      glyph, or a function rendering a vector icon. */
  datatype IconProp = Absent | Glyph(name: string) | Factory

  /** The default `icon` prop is the empty string. */
  const DefaultIcon: IconProp := Glyph("")

  /** JavaScript truthiness of the `icon` prop: the empty string and a
      missing value are falsy, any other string and any function truthy. */
  predicate IsTruthy(icon: IconProp)
  {
    match icon
    case Absent => false
    case Glyph(s) => s != ""
    case Factory => true
  }

  datatype IconRender = NoIcon | Rendered(kind: IconType)

  /** `renderMenuItemIconIfNeeded`: a falsy icon renders nothing; otherwise
      an explicit `iconType` wins, and failing that a function icon is drawn
      as SVG and a string icon from the icon font. */
  function RenderIconIfNeeded(icon: IconProp, iconType: Option<IconType>): (r: IconRender)
    ensures r.NoIcon? <==> icon.Absent? || icon == Glyph("")
    ensures r.Rendered? && iconType.Some? ==> r.kind == iconType.value
    ensures r.Rendered? && iconType.None? ==> (r.kind == SVG <==> icon.Factory?)
  {
    if !IsTruthy(icon) then NoIcon
    else if iconType.Some? then Rendered(iconType.value)
    else Rendered(if icon.Factory? then SVG else IconFont)
  }

  /** The default props render no icon block at all, whatever the type. */
  lemma DefaultIconRendersNothing(iconType: Option<IconType>)
    ensures RenderIconIfNeeded(DefaultIcon, iconType) == NoIcon
  {
  }

  /** Inference never contradicts an explicit type: whenever an icon is
      drawn with no explicit type, supplying the inferred type as the
      explicit one draws the same thing. */
  lemma ExplicitInferredTypeAgrees(icon: IconProp)
    ensures var r := RenderIconIfNeeded(icon, None);
            r.Rendered? ==> RenderIconIfNeeded(icon, Some(r.kind)) == r
  {
  }
}
