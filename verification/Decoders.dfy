/**
 The decoders: events assigned field by field while the attributes are walked.
 */
module Decoders {
  import opened Wrappers
  import opened Bytes
  import opened Wire
  import opened Attributes
  import opened Text
  import opened Events

  /** get_msg_payload: the fixed part, or None when the message is too short. */
  function MsgPayload(m: seq<Byte>, size: nat): Option<seq<Byte>> {
    if U32At(m, 0) < HEADER_SIZE + size then None else Some(Slice(m, HEADER_SIZE, size))
  }

  /** extract_ifname: its own attribute loop, which stops at the first name. */
  method ExtractIfname(m: seq<Byte>) returns (name: string)
    ensures name == if HasFixed(m, LINK_SIZE) then FirstName(Attrs(m, LINK_SIZE)) else ""
  {
    hide U32At, U16At, Align4, AttributeAt;
    if U32At(m, 0) < HEADER_SIZE + LINK_SIZE {
      return "";
    }
    var attrLength := AttrLength(m, LINK_SIZE);
    if attrLength <= 0 {
      return "";
    }
    var attr := From(m, HEADER_SIZE + LINK_SIZE);
    while RtaOk(attr, attrLength)
      invariant FirstName(AttrWalk(attr, attrLength)) == FirstName(Attrs(m, LINK_SIZE))
      decreases attrLength
    {
      var a := AttributeAt(attr);
      var step := Align4(U16At(attr, 0));
      FirstOfWalk(a, AttrWalk(From(attr, step), attrLength - step));
      if a.rtaType == IFLA_IFNAME && |a.payload| != 0 {
        name := AttributeString(a);
        return;
      }
      attr, attrLength := From(attr, step), attrLength - step;
    }
    name := "";
  }

  lemma FirstOfWalk(a: Attribute, rest: seq<Attribute>)
    ensures FirstName([a] + rest)
            == if a.rtaType == IFLA_IFNAME && a.payload != [] then StringOf(a) else FirstName(rest)
  {
    assert ([a] + rest)[1..] == rest;
  }

  method LinkFromNlmsghdr(m: seq<Byte>) returns (event: LinkEvent)
    ensures event == LinkOf(m)
  {
    hide U32At, U16At, Attrs;
    event := NO_LINK;
    var msgType := MsgType(m);
    if msgType == RTM_NEWLINK {
      event := event.(change := New);
    } else if msgType == RTM_DELLINK {
      event := event.(change := Deleted);
    }
    if event.change == Unknown {
      return;
    }
    var info := MsgPayload(m, LINK_SIZE);
    if info == None {
      event := event.(change := Unknown);
      return;
    }
    event := event.(index := I32At(info.value, 4));
    event := event.(flags := U32At(info.value, 8));
    event := event.(changeMask := U32At(info.value, 12));
    var name := ExtractIfname(m);
    event := event.(name := name);
  }

  /** What the last attribute of each type is after one more attribute. */
  lemma LastOfPrefix(attrs: seq<Attribute>, i: nat, ty: U16)
    requires i < |attrs|
    ensures LastOf(attrs[..i + 1], ty)
            == if attrs[i].rtaType == ty then Some(attrs[i]) else LastOf(attrs[..i], ty)
  {
    assert attrs[..i + 1][..i] == attrs[..i];
  }

  method AddressFromNlmsghdr(m: seq<Byte>) returns (event: AddressEvent)
    ensures event == AddressEventOf(m)
  {
    hide U32At, U16At, Attrs, AddressOf, StringOf, LastOf, Slice;
    event := NO_ADDRESS_EVENT;
    var msgType := MsgType(m);
    if msgType == RTM_NEWADDR {
      event := event.(change := New);
    } else if msgType == RTM_DELADDR {
      event := event.(change := Deleted);
    }
    if event.change == Unknown {
      return;
    }
    var info := MsgPayload(m, ADDRESS_SIZE);
    if info == None {
      event := event.(change := Unknown);
      return;
    }
    var fixed := info.value;
    event := event.(family := At(fixed, 0));
    event := event.(prefixLen := At(fixed, 1));
    event := event.(scope := At(fixed, 3));
    event := event.(flags := At(fixed, 2));
    event := event.(index := I32At(fixed, 4));

    var localAddress, peerAddress, labelText := NoAddress, NoAddress, "";
    var attrs := ForEachAttr(m, ADDRESS_SIZE);
    LastOfEmpty();
    for i := 0 to |attrs|
      invariant localAddress == LastAddress(attrs[..i], IFA_LOCAL, event.family)
      invariant peerAddress == LastAddress(attrs[..i], IFA_ADDRESS, event.family)
      invariant labelText == LastString(attrs[..i], IFA_LABEL)
    {
      LastOfPrefix(attrs, i, IFA_LOCAL);
      LastOfPrefix(attrs, i, IFA_ADDRESS);
      LastOfPrefix(attrs, i, IFA_LABEL);
      var attr := attrs[i];
      if attr.rtaType == IFA_LOCAL {
        localAddress := AddressOf(attr, event.family);
      } else if attr.rtaType == IFA_ADDRESS {
        peerAddress := AddressOf(attr, event.family);
      } else if attr.rtaType == IFA_LABEL {
        labelText := AttributeString(attr);
      }
    }
    assert attrs[..|attrs|] == attrs;
    event := event.(address := if localAddress != NoAddress then localAddress else peerAddress);
    event := event.(labelText := labelText);
  }

  lemma LastOfEmpty()
    ensures forall ty: U16 :: LastOf([], ty) == None
  {
  }

  /** The route event after the attributes attrs have been seen. */
  ghost predicate RouteSoFar(event: RouteEvent, fixed: seq<Byte>, attrs: seq<Attribute>) {
    && event.table == LastU32(attrs, RTA_TABLE, At(fixed, 4))
    && event.priority == LastU32(attrs, RTA_PRIORITY, 0)
    && event.oifIndex == LastU32(attrs, RTA_OIF, 0)
    && event.dst == LastAddress(attrs, RTA_DST, event.family)
    && event.src == LastAddress(attrs, RTA_SRC, event.family)
    && event.gateway == LastAddress(attrs, RTA_GATEWAY, event.family)
    && event.prefsrc == LastAddress(attrs, RTA_PREFSRC, event.family)
  }

  method RouteFromNlmsghdr(m: seq<Byte>) returns (event: RouteEvent)
    ensures event == RouteOf(m)
  {
    hide U32At, U16At, Attrs, AddressOf, U32Of, LastOf, Slice, Decimal;
    event := NO_ROUTE;
    var msgType := MsgType(m);
    if msgType == RTM_NEWROUTE {
      event := event.(change := New);
    } else if msgType == RTM_DELROUTE {
      event := event.(change := Deleted);
    }
    if event.change == Unknown {
      return;
    }
    var info := MsgPayload(m, ROUTE_SIZE);
    if info == None {
      event := event.(change := Unknown);
      return;
    }
    var fixed := info.value;
    event := event.(family := At(fixed, 0));
    event := event.(dstPrefixLen := At(fixed, 1));
    event := event.(srcPrefixLen := At(fixed, 2));
    event := event.(scope := At(fixed, 6));
    event := event.(protocol := At(fixed, 5));
    event := event.(routeType := At(fixed, 7));
    event := event.(flags := U32At(fixed, 8));
    event := event.(table := At(fixed, 4));

    var attrs := ForEachAttr(m, ROUTE_SIZE);
    LastOfEmpty();
    ghost var base := event;
    for i := 0 to |attrs|
      invariant RouteSoFar(event, fixed, attrs[..i])
      invariant event == base.(table := event.table, priority := event.priority, oifIndex := event.oifIndex,
                               dst := event.dst, src := event.src, gateway := event.gateway,
                               prefsrc := event.prefsrc)
    {
      LastOfPrefix(attrs, i, RTA_TABLE);
      LastOfPrefix(attrs, i, RTA_PRIORITY);
      LastOfPrefix(attrs, i, RTA_OIF);
      LastOfPrefix(attrs, i, RTA_DST);
      LastOfPrefix(attrs, i, RTA_SRC);
      LastOfPrefix(attrs, i, RTA_GATEWAY);
      LastOfPrefix(attrs, i, RTA_PREFSRC);
      var attr := attrs[i];
      if attr.rtaType == RTA_TABLE {
        event := event.(table := U32Of(attr));
      } else if attr.rtaType == RTA_DST {
        event := event.(dst := AddressOf(attr, event.family));
      } else if attr.rtaType == RTA_SRC {
        event := event.(src := AddressOf(attr, event.family));
      } else if attr.rtaType == RTA_GATEWAY {
        event := event.(gateway := AddressOf(attr, event.family));
      } else if attr.rtaType == RTA_PREFSRC {
        event := event.(prefsrc := AddressOf(attr, event.family));
      } else if attr.rtaType == RTA_OIF {
        event := event.(oifIndex := U32Of(attr));
      } else if attr.rtaType == RTA_PRIORITY {
        event := event.(priority := U32Of(attr));
      }
    }
    assert attrs[..|attrs|] == attrs;
    if event.oifIndex != 0 {
      event := event.(oif := Decimal(event.oifIndex));
    }
  }

  method NeighborFromNlmsghdr(m: seq<Byte>) returns (event: NeighborEvent)
    ensures event == NeighborOf(m)
  {
    hide U32At, U16At, Attrs, AddressOf, HwAddr, LastOf, Slice;
    event := NO_NEIGHBOR;
    var msgType := MsgType(m);
    if msgType == RTM_NEWNEIGH {
      event := event.(change := New);
    } else if msgType == RTM_DELNEIGH {
      event := event.(change := Deleted);
    }
    if event.change == Unknown {
      return;
    }
    var info := MsgPayload(m, NEIGHBOR_SIZE);
    if info == None {
      event := event.(change := Unknown);
      return;
    }
    var fixed := info.value;
    event := event.(family := At(fixed, 0));
    event := event.(index := I32At(fixed, 4));
    event := event.(state := U16At(fixed, 8));
    event := event.(flags := At(fixed, 10));
    event := event.(neighborType := At(fixed, 11));

    var attrs := ForEachAttr(m, NEIGHBOR_SIZE);
    LastOfEmpty();
    ghost var base := event;
    for i := 0 to |attrs|
      invariant event.address == LastAddress(attrs[..i], NDA_DST, event.family)
      invariant event.lladdr == LastHwAddr(attrs[..i], NDA_LLADDR)
      invariant event == base.(address := event.address, lladdr := event.lladdr)
    {
      LastOfPrefix(attrs, i, NDA_DST);
      LastOfPrefix(attrs, i, NDA_LLADDR);
      var attr := attrs[i];
      if attr.rtaType == NDA_DST {
        event := event.(address := AddressOf(attr, event.family));
      } else if attr.rtaType == NDA_LLADDR {
        var lladdr := AttributeHwaddr(attr);
        event := event.(lladdr := lladdr);
      }
    }
    assert attrs[..|attrs|] == attrs;
  }
}
