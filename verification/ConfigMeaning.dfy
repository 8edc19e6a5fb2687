/** What the words of a network block mean for the choice of a BSS: from the text of
    a field, through the bits it sets (wpa_supplicant/config.c), to the scan results
    that the network suits (wpa_supplicant/events.c). */
module ConfigMeaning {
  import opened ConfigNetwork
  import opened InfoElements
  import opened Networks
  import opened SelectionSuits
  import opened WordList
  import opened Wrappers
  import BssTable
  import Matching

  // ----- from words to bits

  /** The word is known and has one of the bits. */
  ghost predicate Sets(words: seq<Word>, t: string, bits: bv16) {
    BitOf(words, t).Some? && And(BitOf(words, t).value, bits) != 0
  }

  lemma {:induction false} MaskHas(words: seq<Word>, ts: seq<string>, bits: bv16)
    ensures And(MaskOf(words, ts), bits) != 0 <==> exists t :: t in ts && Sets(words, t, bits)
  {
    hide And, Or, BitOf;
    ZeroHas(bits);
    if ts != [] {
      var init, t := ts[..|ts| - 1], ts[|ts| - 1];
      MaskHas(words, init, bits);
      OrHas(MaskOf(words, init), if BitOf(words, t).Some? then BitOf(words, t).value else 0, bits);
      assert And(MaskOf(words, ts), bits) != 0 <==> And(MaskOf(words, init), bits) != 0 || Sets(words, t, bits);
      assert ts == init + [t];
    }
  }

  lemma ZeroHas(bits: bv16)
    ensures And(0, bits) == 0
  {
  }

  lemma AndOr(a: bv16, b: bv16, bits: bv16)
    ensures And(Or(a, b), bits) == Or(And(a, bits), And(b, bits))
  {
  }

  lemma OrZero(a: bv16, b: bv16)
    ensures Or(a, b) == 0 <==> a == 0 && b == 0
  {
  }

  lemma OrHas(a: bv16, b: bv16, bits: bv16)
    ensures And(Or(a, b), bits) != 0 <==> And(a, bits) != 0 || And(b, bits) != 0
  {
    hide And, Or;
    AndOr(a, b, bits);
    OrZero(And(a, bits), And(b, bits));
  }

  lemma ProtoWords(t: string)
    ensures BitOf(PROTO_READ, t)
         == if t == "WPA" then Some(1) else if t == "RSN" || t == "WPA2" then Some(2) else None
  {
    var w := PROTO_READ;
    assert w == [Word("WPA", 1), Word("RSN", 2), Word("WPA2", 2)];
    assert w[1..][0] == w[1] && w[1..][1..][0] == w[2] && w[1..][1..][1..] == [];
    BitStep(w, t);
    BitStep(w[1..], t);
    BitStep(w[1..][1..], t);
    BitStep([], t);
  }

  lemma KeyMgmtWords(t: string)
    ensures BitOf(KEY_MGMT_WORDS, t)
         == if t == "WPA-PSK" then Some(2) else if t == "WPA-EAP" then Some(1)
            else if t == "IEEE8021X" then Some(8) else if t == "NONE" then Some(4)
            else if t == "WPA-NONE" then Some(16) else None
  {
    var w := KEY_MGMT_WORDS;
    assert w[1..][0] == w[1] && w[1..][1..][0] == w[2] && w[1..][1..][1..][0] == w[3];
    assert w[1..][1..][1..][1..][0] == w[4] && w[1..][1..][1..][1..][1..] == [];
    BitStep(w, t);
    BitStep(w[1..], t);
    BitStep(w[1..][1..], t);
    BitStep(w[1..][1..][1..], t);
    BitStep(w[1..][1..][1..][1..], t);
    BitStep([], t);
  }

  lemma BitStep(words: seq<Word>, t: string)
    ensures BitOf(words, t) == if words == [] then None else if words[0].text == t then Some(words[0].bit)
                               else BitOf(words[1..], t)
  {
  }

  lemma SmallBits()
    ensures And(1, 1) != 0 && And(2, 1) == 0 && And(4, 1) == 0 && And(8, 1) == 0 && And(16, 1) == 0
    ensures And(1, 2) == 0 && And(2, 2) != 0 && And(4, 2) == 0 && And(8, 2) == 0 && And(16, 2) == 0
    ensures And(1, 0x1e3) != 0 && And(2, 0x1e3) != 0 && And(4, 0x1e3) == 0 && And(8, 0x1e3) == 0
    ensures And(16, 0x1e3) == 0
    ensures And(1, 0x20c) == 0 && And(2, 0x20c) == 0 && And(4, 0x20c) != 0 && And(8, 0x20c) != 0
    ensures And(16, 0x20c) == 0
  {
  }

  /** The bits of a list of protocols say which words are in it. */
  lemma ProtoMeans(text: string, m: bv16)
    requires ParseValue(Proto, text) == Some(Mask(m))
    ensures And(m, Matching.WPA_PROTO_WPA) != 0 <==> "WPA" in Tokens(text)
    ensures And(m, Matching.WPA_PROTO_RSN) != 0 <==> "RSN" in Tokens(text) || "WPA2" in Tokens(text)
  {
    hide BitOf, MaskOf, Tokens, And;
    var ts := Tokens(text);
    forall t
      ensures BitOf(PROTO_READ, t)
           == if t == "WPA" then Some(1) else if t == "RSN" || t == "WPA2" then Some(2) else None
    {
      ProtoWords(t);
    }
    SmallBits();
    MaskHas(PROTO_READ, ts, 1);
    MaskHas(PROTO_READ, ts, 2);
  }

  /** The bits of a list of key managements say which words are in it. */
  lemma KeyMgmtMeans(text: string, m: bv16)
    requires ParseValue(KeyMgmt, text) == Some(Mask(m))
    ensures And(m, 0x1e3) != 0 <==> "WPA-PSK" in Tokens(text) || "WPA-EAP" in Tokens(text)
    ensures And(m, 0x20c) != 0 <==> "NONE" in Tokens(text) || "IEEE8021X" in Tokens(text)
    ensures And(m, Matching.WPA_KEY_MGMT_PSK) != 0 <==> "WPA-PSK" in Tokens(text)
    ensures And(m, Matching.WPA_KEY_MGMT_IEEE8021X) != 0 <==> "WPA-EAP" in Tokens(text)
  {
    hide And, BitOf, MaskOf, Tokens, Sets;
    var ts := Tokens(text);
    assert m == MaskOf(KEY_MGMT_WORDS, ts);
    forall t
      ensures Sets(KEY_MGMT_WORDS, t, 0x1e3) <==> t == "WPA-PSK" || t == "WPA-EAP"
      ensures Sets(KEY_MGMT_WORDS, t, 0x20c) <==> t == "NONE" || t == "IEEE8021X"
      ensures Sets(KEY_MGMT_WORDS, t, 2) <==> t == "WPA-PSK"
      ensures Sets(KEY_MGMT_WORDS, t, 1) <==> t == "WPA-EAP"
    {
      KeyMgmtSets(t);
    }
    MaskHas(KEY_MGMT_WORDS, ts, 0x1e3);
    MaskHas(KEY_MGMT_WORDS, ts, 0x20c);
    MaskHas(KEY_MGMT_WORDS, ts, 1);
    MaskHas(KEY_MGMT_WORDS, ts, 2);
  }

  lemma KeyMgmtSets(t: string)
    ensures Sets(KEY_MGMT_WORDS, t, 0x1e3) <==> t == "WPA-PSK" || t == "WPA-EAP"
    ensures Sets(KEY_MGMT_WORDS, t, 0x20c) <==> t == "NONE" || t == "IEEE8021X"
    ensures Sets(KEY_MGMT_WORDS, t, 2) <==> t == "WPA-PSK"
    ensures Sets(KEY_MGMT_WORDS, t, 1) <==> t == "WPA-EAP"
  {
    hide And, BitOf;
    KeyMgmtWords(t);
    SmallBits();
  }

  lemma CipherWords(t: string)
    ensures BitOf(CIPHER_WORDS, t)
         == if t == "CCMP" then Some(16) else if t == "TKIP" then Some(8)
            else if t == "WEP104" then Some(4) else if t == "WEP40" then Some(2)
            else if t == "NONE" then Some(1) else None
  {
    var w := CIPHER_WORDS;
    assert w[1..][0] == w[1] && w[1..][1..][0] == w[2] && w[1..][1..][1..][0] == w[3];
    assert w[1..][1..][1..][1..][0] == w[4] && w[1..][1..][1..][1..][1..] == [];
    BitStep(w, t);
    BitStep(w[1..], t);
    BitStep(w[1..][1..], t);
    BitStep(w[1..][1..][1..], t);
    BitStep(w[1..][1..][1..][1..], t);
    BitStep([], t);
  }

  lemma CipherBits()
    ensures And(16, 16) != 0 && And(8, 16) == 0 && And(4, 16) == 0 && And(2, 16) == 0 && And(1, 16) == 0
    ensures And(16, 8) == 0 && And(8, 8) != 0 && And(4, 8) == 0 && And(2, 8) == 0 && And(1, 8) == 0
    ensures And(16, 1) == 0 && And(8, 1) == 0 && And(4, 1) == 0 && And(2, 1) == 0 && And(1, 1) != 0
    ensures And(16, 6) == 0 && And(8, 6) == 0 && And(4, 6) != 0 && And(2, 6) != 0 && And(1, 6) == 0
  {
  }

  /** The bits of a list of ciphers say which words are in it; the two WEP ciphers
      are those with which WEP is used without WPA. */
  lemma CiphersMean(kind: ConfigNetwork.Kind, text: string, m: bv16)
    requires (kind.Pairwise? || kind.Group?) && ParseValue(kind, text) == Some(Mask(m))
    ensures And(m, 16) != 0 <==> "CCMP" in Tokens(text)
    ensures And(m, 8) != 0 <==> "TKIP" in Tokens(text)
    ensures And(m, 1) != 0 <==> "NONE" in Tokens(text)
    ensures And(m, Matching.WPA_CIPHER_WEP40 | Matching.WPA_CIPHER_WEP104) != 0
       <==> "WEP40" in Tokens(text) || "WEP104" in Tokens(text)
  {
    hide BitOf, MaskOf, Tokens, And, Sets;
    var ts := Tokens(text);
    assert m == MaskOf(CIPHER_WORDS, ts);
    forall t
      ensures Sets(CIPHER_WORDS, t, 16) <==> t == "CCMP"
      ensures Sets(CIPHER_WORDS, t, 8) <==> t == "TKIP"
      ensures Sets(CIPHER_WORDS, t, 1) <==> t == "NONE"
      ensures Sets(CIPHER_WORDS, t, 6) <==> t == "WEP104" || t == "WEP40"
    {
      CipherSets(t);
    }
    SixIsWep();
    MaskHas(CIPHER_WORDS, ts, 16);
    MaskHas(CIPHER_WORDS, ts, 8);
    MaskHas(CIPHER_WORDS, ts, 1);
    MaskHas(CIPHER_WORDS, ts, 6);
  }

  lemma SixIsWep()
    ensures Matching.WPA_CIPHER_WEP40 | Matching.WPA_CIPHER_WEP104 == 6
  {
  }

  lemma CipherSets(t: string)
    ensures Sets(CIPHER_WORDS, t, 16) <==> t == "CCMP"
    ensures Sets(CIPHER_WORDS, t, 8) <==> t == "TKIP"
    ensures Sets(CIPHER_WORDS, t, 1) <==> t == "NONE"
    ensures Sets(CIPHER_WORDS, t, 6) <==> t == "WEP104" || t == "WEP40"
  {
    hide And, BitOf;
    CipherWords(t);
    CipherBits();
  }

  lemma AuthAlgWords(t: string)
    ensures BitOf(AUTH_ALG_WORDS, t)
         == if t == "OPEN" then Some(1) else if t == "SHARED" then Some(2) else if t == "LEAP" then Some(4) else None
  {
    var w := AUTH_ALG_WORDS;
    assert w[1..][0] == w[1] && w[1..][1..][0] == w[2] && w[1..][1..][1..] == [];
    BitStep(w, t);
    BitStep(w[1..], t);
    BitStep(w[1..][1..], t);
    BitStep([], t);
  }

  lemma AuthAlgSets(t: string)
    ensures Sets(AUTH_ALG_WORDS, t, 1) <==> t == "OPEN"
    ensures Sets(AUTH_ALG_WORDS, t, 2) <==> t == "SHARED"
    ensures Sets(AUTH_ALG_WORDS, t, 4) <==> t == "LEAP"
  {
    AuthAlgWords(t);
  }

  /** The bits of a list of authentication algorithms say which words are in it. */
  lemma AuthAlgsMean(text: string, m: bv16)
    requires ParseValue(AuthAlg, text) == Some(Mask(m))
    ensures And(m, 1) != 0 <==> "OPEN" in Tokens(text)
    ensures And(m, 2) != 0 <==> "SHARED" in Tokens(text)
    ensures And(m, 4) != 0 <==> "LEAP" in Tokens(text)
  {
    hide BitOf, MaskOf, Tokens, And, Sets;
    var ts := Tokens(text);
    assert m == MaskOf(AUTH_ALG_WORDS, ts);
    forall t
      ensures Sets(AUTH_ALG_WORDS, t, 1) <==> t == "OPEN"
      ensures Sets(AUTH_ALG_WORDS, t, 2) <==> t == "SHARED"
      ensures Sets(AUTH_ALG_WORDS, t, 4) <==> t == "LEAP"
    {
      AuthAlgSets(t);
    }
    MaskHas(AUTH_ALG_WORDS, ts, 1);
    MaskHas(AUTH_ALG_WORDS, ts, 2);
    MaskHas(AUTH_ALG_WORDS, ts, 4);
  }

  // ----- which lists are accepted

  lemma AllSets(words: seq<Word>, ts: seq<string>)
    requires forall t :: BitOf(words, t).Some? ==> BitOf(words, t).value != 0
    ensures AllKnown(words, ts) && MaskOf(words, ts) != 0
       <==> ts != [] && forall t :: t in ts ==> BitOf(words, t).Some?
  {
    hide BitOf, MaskOf, And;
    MaskHas(words, ts, 0xffff);
    Whole(MaskOf(words, ts));
    if ts != [] && AllKnown(words, ts) {
      assert ts[0] in ts;
      Whole(BitOf(words, ts[0]).value);
      assert Sets(words, ts[0], 0xffff);
    }
    if ts == [] {
      assert !exists t :: t in ts && Sets(words, t, 0xffff);
    }
  }

  lemma Whole(m: bv16)
    ensures And(m, 0xffff) == m
  {
  }

  /** The words that a list of each kind may hold. */
  ghost function WordsOf(kind: ConfigNetwork.Kind): seq<string> {
    match kind
    case Proto => ["WPA", "RSN", "WPA2"]
    case KeyMgmt => ["WPA-PSK", "WPA-EAP", "IEEE8021X", "NONE", "WPA-NONE"]
    case Pairwise => ["CCMP", "TKIP", "NONE"]
    case Group => ["CCMP", "TKIP", "WEP104", "WEP40"]
    case AuthAlg => ["OPEN", "SHARED", "LEAP"]
    case _ => []
  }

  /** A list is accepted exactly if it names at least one word, and no other words
      than those that its field knows and allows. */
  lemma ListAccepted(kind: ConfigNetwork.Kind, text: string)
    requires kind.Proto? || kind.KeyMgmt? || kind.Pairwise? || kind.Group? || kind.AuthAlg?
    ensures ParseValue(kind, text).Some? <==> Tokens(text) != [] && forall t :: t in Tokens(text) ==> t in WordsOf(kind)
  {
    hide Tokens, BitOf, MaskOf, AllKnown, And, CipherField;
    match kind
    case Proto =>
      forall t {
        ProtoWords(t);
      }
      AllSets(PROTO_READ, Tokens(text));
    case KeyMgmt =>
      forall t {
        KeyMgmtWords(t);
      }
      AllSets(KEY_MGMT_WORDS, Tokens(text));
    case AuthAlg =>
      forall t {
        AuthAlgWords(t);
      }
      AllSets(AUTH_ALG_WORDS, Tokens(text));
    case Pairwise =>
      forall t {
        AllowedWords(t);
      }
      AllowedOnly(PAIRWISE_ALLOWED, WordsOf(kind), text);
    case Group =>
      forall t {
        AllowedWords(t);
      }
      AllowedOnly(GROUP_ALLOWED, WordsOf(kind), text);
  }

  /** Whether the cipher word has a bit that is not allowed. */
  lemma AllowedWords(t: string)
    ensures t in WordsOf(Pairwise) <==> BitOf(CIPHER_WORDS, t).Some? && !Sets(CIPHER_WORDS, t, !PAIRWISE_ALLOWED)
    ensures t in WordsOf(Group) <==> BitOf(CIPHER_WORDS, t).Some? && !Sets(CIPHER_WORDS, t, !GROUP_ALLOWED)
    ensures BitOf(CIPHER_WORDS, t).Some? ==> BitOf(CIPHER_WORDS, t).value != 0
  {
    hide BitOf;
    CipherWords(t);
  }

  lemma Outside(m: bv16, allowed: bv16)
    ensures And(m, allowed) == m <==> And(m, !allowed) == 0
  {
  }

  lemma AllowedOnly(allowed: bv16, ws: seq<string>, text: string)
    requires forall t :: t in ws <==> BitOf(CIPHER_WORDS, t).Some? && !Sets(CIPHER_WORDS, t, !allowed)
    requires forall t :: BitOf(CIPHER_WORDS, t).Some? ==> BitOf(CIPHER_WORDS, t).value != 0
    ensures CipherField(allowed, text).Some? <==> Tokens(text) != [] && forall t :: t in Tokens(text) ==> t in ws
  {
    hide Tokens, BitOf, MaskOf, And, Sets;
    var ts := Tokens(text);
    AllSets(CIPHER_WORDS, ts);
    MaskHas(CIPHER_WORDS, ts, !allowed);
    Outside(MaskOf(CIPHER_WORDS, ts), allowed);
  }

  // ----- from the text to the choice

  /** The masks of a network are those that the two texts set. */
  ghost predicate Says(s: Settings, proto: string, keyMgmt: string) {
    ParseValue(Proto, proto) == Some(Mask(s.proto)) && ParseValue(KeyMgmt, keyMgmt) == Some(Mask(s.keyMgmt))
  }

  /** A network that asks for WPA-PSK or WPA-EAP is used only with results that
      announce what its protocols name, WPA with a WPA element and RSN or WPA2 with
      an RSN element; and a result that announces neither is used only with a network
      that allows NONE or IEEE8021X. */
  lemma WordsDecide(parse: Matching.Parser, s: Settings, res: BssTable.ScanRes, proto: string, keyMgmt: string)
    requires Says(s, proto, keyMgmt) && Suits(parse, s, res)
    ensures var es, ps, ks := Parse(res.ies), Tokens(proto), Tokens(keyMgmt);
            && ("WPA-PSK" in ks || "WPA-EAP" in ks ==>
                  || ("WPA" in ps && OffersWpa(parse, es, s))
                  || (("RSN" in ps || "WPA2" in ps) && OffersRsn(parse, es, s)))
            && (!Announces(es) ==> "NONE" in ks || "IEEE8021X" in ks)
  {
    hide Parse, Tokens, ParseValue, Suits, OffersRsn, OffersWpa, Announces, And;
    ProtoMeans(proto, s.proto);
    KeyMgmtMeans(keyMgmt, s.keyMgmt);
    SuitsBits(parse, s, res);
  }

  lemma SuitsBits(parse: Matching.Parser, s: Settings, res: BssTable.ScanRes)
    requires Suits(parse, s, res)
    ensures var es := Parse(res.ies);
            && (And(s.keyMgmt, 0x1e3) != 0 ==>
                  || (And(s.proto, 2) != 0 && OffersRsn(parse, es, s))
                  || (And(s.proto, 1) != 0 && OffersWpa(parse, es, s)))
            && (!Announces(es) ==> And(s.keyMgmt, 0x20c) != 0)
  {
    hide Parse, OffersRsn, OffersWpa, Announces, HasWep, And;
    AndIs(s.keyMgmt, 0x1e3);
    AndIs(s.keyMgmt, 0x20c);
    AndIs(s.proto, 1);
    AndIs(s.proto, 2);
  }

  lemma AndIs(a: bv16, b: bv16)
    ensures And(a, b) == a & b
  {
  }

  /** So proto=WPA restricts a network with pre-shared keys to results with a WPA
      element, and proto=RSN to those with an RSN element. */
  lemma ProtoRestricts(parse: Matching.Parser, s: Settings, res: BssTable.ScanRes, proto: string)
    requires proto in ["WPA", "RSN", "WPA2"] && Says(s, proto, "WPA-PSK") && Suits(parse, s, res)
    ensures if proto == "WPA" then exists i: nat :: FirstWpa(Parse(res.ies), i)
            else exists i: nat :: FirstRsn(Parse(res.ies), i)
  {
    hide Parse, Tokens, ParseValue, FirstWpa, FirstRsn, Offers, Announces, Suits;
    OneWord(proto);
    OneWord("WPA-PSK");
    WordsDecide(parse, s, res, proto, "WPA-PSK");
  }

  lemma OneWord(w: string)
    requires IsToken(w)
    ensures Tokens(w) == [w]
  {
    TokensOfToken(w);
  }
}
