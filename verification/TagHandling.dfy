/** Which tags the decoder interprets, and what value sharing is for. */
module TagHandling {
  import opened Bytes
  import opened Wrappers
  import opened Values
  import opened Wire
  import opened DecoderConfig
  import opened RecursiveDecoder

  /** Tags 25 and 256 under the option for string references, 28 and 29 under that for value sharing. */
  predicate IsInterpreted(cfg: Config, tag: nat) {
    (cfg.stringRef && (tag == 25 || tag == 256)) || (cfg.sharedRef && (tag == 28 || tag == 29))
  }

  lemma TagOpened(cfg: Config, env: Env, tag: nat, s: bytes, depth: nat, slot: Slot)
    requires tag <= LONG_MAX
    ensures Item(cfg, env, Write(TagHead(tag)) + s, depth, slot) == TagItem(cfg, env, s, depth, slot, tag)
  {
    hide Write, TagItem, Item;
    ItemOfWritten(cfg, env, TagHead(tag), s, depth, slot);
  }

  /** Any other tag is returned with its content, inside and outside of namespaces. */
  lemma OtherTagsAreKept(cfg: Config, env: Env, tag: nat, s: bytes, depth: nat, slot: Slot)
    requires tag <= LONG_MAX && !IsInterpreted(cfg, tag) && depth < cfg.maxDepth && slot.share.None?
    ensures var d := Item(cfg, env, s, depth + 1, Slot(false, slot.inNs, None));
            Item(cfg, env, Write(TagHead(tag)) + s, depth, slot) ==
            if d.Failed? then d else if IsBigInt(d.val) then Failed(IntRange) else Got(Tag(tag, d.val), d.env, d.rest)
  {
    hide Write, Item;
    TagOpened(cfg, env, tag, s, depth, slot);
  }

  /** PHP values that are not instances of a class, and so have no identity to share. */
  predicate IsPlain(v: Val) { v.Null? || v.Bool? || v.Int? || v.Float? || v.Str? || v.List? }

  /** A value can be shared exactly if it is an instance; then it is known by its number from there on. */
  lemma OnlyInstancesAreShared(cfg: Config, env: Env, s: bytes, depth: nat, slot: Slot)
    requires cfg.sharedRef && depth < cfg.maxDepth && slot.share.None?
    requires var d := Item(cfg, env.(refs := env.refs + [None]), s, depth + 1, Slot(false, slot.inNs, Some(|env.refs|)));
             d.Got? && |env.refs| < |d.env.refs| && d.env.refs[|env.refs|].None?
    ensures var n := |env.refs|;
            var d := Item(cfg, env.(refs := env.refs + [None]), s, depth + 1, Slot(false, slot.inNs, Some(n)));
            Item(cfg, env, Write(TagHead(28)) + s, depth, slot) ==
            if IsBigInt(d.val) then Failed(IntRange)
            else if IsPlain(d.val) then Failed(ShareIncompatible)
            else Got(d.val, d.env.(refs := d.env.refs[n := Some(d.val)]), d.rest)
  {
    hide Write, Item;
    TagOpened(cfg, env, 28, s, depth, slot);
  }
}
