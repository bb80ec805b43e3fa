/** The substitution tables of aria.c (RFC 5794, section 2.4.2). A row is sixteen consecutive entries, the first
    one leftmost. */
module AriaTables {

  function Entry(row: bv128, j: bv8): bv8
    requires j < 16
  {
    ((row >> (120 - 8 * (j as bv7))) & 0xFF) as bv8
  }

  function Sb1(x: bv8): bv8
  {
    Entry(Sb1Row(x >> 4), x & 0xF)
  }

  function Sb1Row(r: bv8): bv128
  {
    if r == 0 then 0x637C777BF26B6FC53001672BFED7AB76
    else if r == 1 then 0xCA82C97DFA5947F0ADD4A2AF9CA472C0
    else if r == 2 then 0xB7FD9326363FF7CC34A5E5F171D83115
    else if r == 3 then 0x04C723C31896059A071280E2EB27B275
    else if r == 4 then 0x09832C1A1B6E5AA0523BD6B329E32F84
    else if r == 5 then 0x53D100ED20FCB15B6ACBBE394A4C58CF
    else if r == 6 then 0xD0EFAAFB434D338545F9027F503C9FA8
    else if r == 7 then 0x51A3408F929D38F5BCB6DA2110FFF3D2
    else if r == 8 then 0xCD0C13EC5F974417C4A77E3D645D1973
    else if r == 9 then 0x60814FDC222A908846EEB814DE5E0BDB
    else if r == 10 then 0xE0323A0A4906245CC2D3AC629195E479
    else if r == 11 then 0xE7C8376D8DD54EA96C56F4EA657AAE08
    else if r == 12 then 0xBA78252E1CA6B4C6E8DD741F4BBD8B8A
    else if r == 13 then 0x703EB5664803F60E613557B986C11D9E
    else if r == 14 then 0xE1F8981169D98E949B1E87E9CE5528DF
    else 0x8CA1890DBFE6426841992D0FB054BB16
  }

  function Sb2(x: bv8): bv8
  {
    Entry(Sb2Row(x >> 4), x & 0xF)
  }

  function Sb2Row(r: bv8): bv128
  {
    if r == 0 then 0xE24E54FC94C24ACC620D6A463C4D8BD1
    else if r == 1 then 0x5EFA64CBB497BE2BBC772E03D31959C1
    else if r == 2 then 0x1D06416B55F09969EA9C18AE63DFE7BB
    else if r == 3 then 0x007366FB964C85E43A0945AA0FEE10EB
    else if r == 4 then 0x2D7FF429ACCFAD918D78C895F92FCECD
    else if r == 5 then 0x087A88385C832A2847DBB8C793A41253
    else if r == 6 then 0xFF870E3136215848018E377432CAE9B1
    else if r == 7 then 0xB7AB0CD7C4564226079860D9B6B91140
    else if r == 8 then 0xEC208CBDA0C984044923F14F501F13DC
    else if r == 9 then 0xD8C09E57E3C37B653B028F3EE82592E5
    else if r == 10 then 0x15DDFD17A9BFD49A7EC53967FE769D43
    else if r == 11 then 0xA7E1D0F568F21B347005A38AD57986A8
    else if r == 12 then 0x30C6514B1EA627F635D26E2416825FDA
    else if r == 13 then 0xE675A2EF2CB21C9F5D6F800A72449B6C
    else if r == 14 then 0x900B5B337D5A52F361A1F7B0D63F7C6D
    else 0xED14E0A53D22B3F889DE711AAFBAB581
  }

  function Is1(x: bv8): bv8
  {
    Entry(Is1Row(x >> 4), x & 0xF)
  }

  function Is1Row(r: bv8): bv128
  {
    if r == 0 then 0x52096AD53036A538BF40A39E81F3D7FB
    else if r == 1 then 0x7CE339829B2FFF87348E4344C4DEE9CB
    else if r == 2 then 0x547B9432A6C2233DEE4C950B42FAC34E
    else if r == 3 then 0x082EA16628D924B2765BA2496D8BD125
    else if r == 4 then 0x72F8F66486689816D4A45CCC5D65B692
    else if r == 5 then 0x6C704850FDEDB9DA5E154657A78D9D84
    else if r == 6 then 0x90D8AB008CBCD30AF7E45805B8B34506
    else if r == 7 then 0xD02C1E8FCA3F0F02C1AFBD0301138A6B
    else if r == 8 then 0x3A9111414F67DCEA97F2CFCEF0B4E673
    else if r == 9 then 0x96AC7422E7AD3585E2F937E81C75DF6E
    else if r == 10 then 0x47F11A711D29C5896FB7620EAA18BE1B
    else if r == 11 then 0xFC563E4BC6D279209ADBC0FE78CD5AF4
    else if r == 12 then 0x1FDDA8338807C731B11210592780EC5F
    else if r == 13 then 0x60517FA919B54A0D2DE57A9F93C99CEF
    else if r == 14 then 0xA0E03B4DAE2AF5B0C8EBBB3C83539961
    else 0x172B047EBA77D626E169146355210C7D
  }

  function Is2(x: bv8): bv8
  {
    Entry(Is2Row(x >> 4), x & 0xF)
  }

  function Is2Row(r: bv8): bv128
  {
    if r == 0 then 0x3068991B87B921785039DBE17209623C
    else if r == 1 then 0x3E7E5E8EF1A0CCA32A1DFBB6D620C48D
    else if r == 2 then 0x8165F589CB9D77C657435617D4401A4D
    else if r == 3 then 0xC0636CE3B7C8646A53AA38980CF49BED
    else if r == 4 then 0x7F2276AFDD3A0B58678806C3350D018B
    else if r == 5 then 0x8CC2E65F02247593661EE5E254D810CE
    else if r == 6 then 0x7AE8082C129732ABB4270A23DFEFCAD9
    else if r == 7 then 0xB8FADC316BD1AD1949BD5196EEE4A841
    else if r == 8 then 0xDAFFCD558636BE6152F8BB0E8248699A
    else if r == 9 then 0xE0479E5C044B34157926A7DE29AE92D7
    else if r == 10 then 0x84E9D2BA5DF3C5B0BFA43B7144462BFC
    else if r == 11 then 0xEB6FD5F614FE7C705A7DFD2F188316A5
    else if r == 12 then 0x911F059574A9C15B4A856D13074F4E45
    else if r == 13 then 0xB20FC91CA6BCEC73907BCF598FA1F92D
    else if r == 14 then 0xF2B10094379FD02E9C6E283F80F03DD3
    else 0x258AB5E742B3C7EAF74C113303A2AC60
  }

  lemma Is1UndoesSb1(x: bv8)
    ensures Is1(Sb1(x)) == x
  {}

  lemma Sb1UndoesIs1(x: bv8)
    ensures Sb1(Is1(x)) == x
  {}

  lemma Is2UndoesSb2(x: bv8)
    ensures Is2(Sb2(x)) == x
  {}

  lemma Sb2UndoesIs2(x: bv8)
    ensures Sb2(Is2(x)) == x
  {}
}
