/** The part of an Xvnc object that desktop names act on (Xvnc.cpp:110-127). */
module Desktop {
  import opened Bytes

  /** "CONTROLLER_KEY:" */
  const KEY_PREFIX: bytes := [67, 79, 78, 84, 82, 79, 76, 76, 69, 82, 95, 75, 69, 89, 58]

  datatype Desktop = Desktop(name: bytes, approvedKeys: set<bytes>) {
    /** No stored name is a controller key, and every stored name came over the
        wire with a 32-bit length. */
    ghost predicate Valid() {
      !(KEY_PREFIX <= name) && |name| < 0x1_0000_0000
    }
  }

  /** Xvnc::setDesktopName: a name with the key prefix approves a controller key
      and leaves the name alone. */
  function SetName(d: Desktop, newName: bytes): Desktop {
    if KEY_PREFIX <= newName then
      d.(approvedKeys := d.approvedKeys + {newName[|KEY_PREFIX|..]})
    else
      d.(name := newName)
  }

  /** Exactly the text behind the prefix is approved, and the name stays. */
  lemma KeyApproved(d: Desktop, key: bytes)
    ensures SetName(d, KEY_PREFIX + key) == d.(approvedKeys := d.approvedKeys + {key})
  {
  }

  /** Any other name becomes the stored one, and no key is approved by it. */
  lemma NameStored(d: Desktop, newName: bytes)
    requires !(KEY_PREFIX <= newName)
    ensures SetName(d, newName) == d.(name := newName)
  {
  }
}
